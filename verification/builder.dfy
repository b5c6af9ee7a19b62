/** `ResourceGraphBuilder` (generator/ir/builder.rs): folds parsed files
    into a resource graph, one resource at a time, through the handler the
    registry finds for the resource's kind. */
module Builder {
  import opened Wrappers
  import opened Model
  import opened Graph
  import opened Registry
  import Ast
  import Number

  /** The handler name each parsed kind is looked up under. */
  function KindName(k: Ast.Kind): string {
    match k
    case StringKind => "string"
    case NumberKind => "number"
    case BoolKind => "bool"
    case ColorKind => "color"
    case TemplateKind => "template"
  }

  /** What ingesting one resource adds to the graph: its key and node when
      a handler is registered under its kind's name and builds a node,
      nothing otherwise. */
  function Accept(reg: TypeRegistry, syn: Number.NumberSyntax, file: Ast.ParsedResourceFile, res: Ast.ParsedResource)
    : (r: Option<(ResourceKey, ResourceNode)>)
    ensures r.Some? <==>
              FindByName(reg, KindName(res.kind)).Some?
              && FindByName(reg, KindName(res.kind)).value.BuildNode(syn, res, NewOrigin(file.path, file.isTest)).Some?
    ensures r.Some? ==> r.value.0 == FromPath(res.name)
    ensures r.Some? ==> r.value.1.origin.file == file.path && r.value.1.origin.isTest == file.isTest
    ensures r.Some? ==> r.value.1.kind == FindByName(reg, KindName(res.kind)).value.Kind()
  {
    match FindByName(reg, KindName(res.kind))
    case None => None
    case Some(h) =>
      match h.BuildNode(syn, res, NewOrigin(file.path, file.isTest))
      case None => None
      case Some(node) => Some((FromPath(res.name), node))
  }

  /** The loop of `ingest_file` over the first resources of the file. */
  function IngestResources(reg: TypeRegistry, syn: Number.NumberSyntax, g: ResourceGraph,
                           file: Ast.ParsedResourceFile, rs: seq<Ast.ParsedResource>): ResourceGraph
  {
    if |rs| == 0 then g
    else
      var g' := IngestResources(reg, syn, g, file, rs[..|rs| - 1]);
      match Accept(reg, syn, file, rs[|rs| - 1])
      case None => g'
      case Some(kn) => Insert(g', kn.0, kn.1).0
  }

  /** `ingest_file`. */
  function IngestFile(reg: TypeRegistry, syn: Number.NumberSyntax, g: ResourceGraph, file: Ast.ParsedResourceFile): ResourceGraph {
    IngestResources(reg, syn, g, file, file.resources)
  }

  /** The loop of `from_parsed_files`, with the registry as a parameter. */
  function IngestFiles(reg: TypeRegistry, syn: Number.NumberSyntax, g: ResourceGraph, files: seq<Ast.ParsedResourceFile>): ResourceGraph {
    if |files| == 0 then g
    else IngestFile(reg, syn, IngestFiles(reg, syn, g, files[..|files| - 1]), files[|files| - 1])
  }

  /** `from_parsed_files`: the files in order into an empty graph, with the
      default registry. */
  function FromParsedFiles(syn: Number.NumberSyntax, files: seq<Ast.ParsedResourceFile>): ResourceGraph {
    IngestFiles(Default(), syn, Empty, files)
  }

  // ---------------------------------------------------------------------
  // The graph as a function of the accepted resources

  /** The accepted (key, node) pairs of some resources of a file, in order. */
  function ResourcePairs(reg: TypeRegistry, syn: Number.NumberSyntax, file: Ast.ParsedResourceFile,
                         rs: seq<Ast.ParsedResource>): seq<(ResourceKey, ResourceNode)>
  {
    if |rs| == 0 then []
    else
      var init := ResourcePairs(reg, syn, file, rs[..|rs| - 1]);
      match Accept(reg, syn, file, rs[|rs| - 1])
      case None => init
      case Some(kn) => init + [kn]
  }

  /** The accepted pairs of all files, file by file. */
  function AcceptedPairs(reg: TypeRegistry, syn: Number.NumberSyntax, files: seq<Ast.ParsedResourceFile>)
    : seq<(ResourceKey, ResourceNode)>
  {
    if |files| == 0 then []
    else AcceptedPairs(reg, syn, files[..|files| - 1]) + ResourcePairs(reg, syn, files[|files| - 1], files[|files| - 1].resources)
  }

  lemma {:induction false} IngestResourcesIsInsertAll(reg: TypeRegistry, syn: Number.NumberSyntax, g: ResourceGraph,
                                                      file: Ast.ParsedResourceFile, rs: seq<Ast.ParsedResource>)
    ensures IngestResources(reg, syn, g, file, rs) == InsertAll(g, ResourcePairs(reg, syn, file, rs))
  {
    if |rs| > 0 {
      var init := ResourcePairs(reg, syn, file, rs[..|rs| - 1]);
      IngestResourcesIsInsertAll(reg, syn, g, file, rs[..|rs| - 1]);
      match Accept(reg, syn, file, rs[|rs| - 1])
      case None =>
      case Some(kn) =>
        assert (init + [kn])[..|init + [kn]| - 1] == init;
    }
  }

  /** Ingesting files inserts exactly their accepted pairs, in order. */
  lemma {:induction false} IngestFilesIsInsertAll(reg: TypeRegistry, syn: Number.NumberSyntax, g: ResourceGraph,
                                                  files: seq<Ast.ParsedResourceFile>)
    ensures IngestFiles(reg, syn, g, files) == InsertAll(g, AcceptedPairs(reg, syn, files))
  {
    if |files| > 0 {
      var last := files[|files| - 1];
      IngestFilesIsInsertAll(reg, syn, g, files[..|files| - 1]);
      IngestResourcesIsInsertAll(reg, syn, IngestFiles(reg, syn, g, files[..|files| - 1]), last, last.resources);
      InsertAllAppend(g, AcceptedPairs(reg, syn, files[..|files| - 1]), ResourcePairs(reg, syn, last, last.resources));
    }
  }

  /** The built graph is the graph of the accepted pairs: under each key,
      every accepted node with that key in file order and, within a file,
      in resource order; so the first file's definition is primary and all
      duplicates are retained. */
  lemma {:induction false} FromParsedFilesGetAll(syn: Number.NumberSyntax, files: seq<Ast.ParsedResourceFile>, k: ResourceKey)
    ensures var pairs := AcceptedPairs(Default(), syn, files);
            GetAll(FromParsedFiles(syn, files), k) ==
              (if NodesWithKey(pairs, k) == [] then None else Some(NodesWithKey(pairs, k)))
  {
    IngestFilesIsInsertAll(Default(), syn, Empty, files);
    BuildIsInsertAll(AcceptedPairs(Default(), syn, files));
    BuildGetAll(AcceptedPairs(Default(), syn, files), k);
  }

  /** The graph has one key per distinct key among the accepted resources. */
  lemma {:induction false} FromParsedFilesKeyCount(syn: Number.NumberSyntax, files: seq<Ast.ParsedResourceFile>)
    ensures var pairs := AcceptedPairs(Default(), syn, files);
            |Keys(FromParsedFiles(syn, files))| == |set j | 0 <= j < |pairs| :: pairs[j].0|
  {
    IngestFilesIsInsertAll(Default(), syn, Empty, files);
    BuildIsInsertAll(AcceptedPairs(Default(), syn, files));
    BuildKeys(AcceptedPairs(Default(), syn, files));
  }

  /** A resource that is not accepted leaves the graph as it was. */
  lemma {:induction false} SkippedResource(reg: TypeRegistry, syn: Number.NumberSyntax, g: ResourceGraph,
                        file: Ast.ParsedResourceFile, rs: seq<Ast.ParsedResource>, res: Ast.ParsedResource)
    requires Accept(reg, syn, file, res).None?
    ensures IngestResources(reg, syn, g, file, rs + [res]) == IngestResources(reg, syn, g, file, rs)
  {
    assert (rs + [res])[..|rs + [res]| - 1] == rs;
  }

  /** With the default registry a template resource is always skipped,
      since no handler is registered under "template". */
  lemma {:induction false} DefaultSkipsTemplates(syn: Number.NumberSyntax, file: Ast.ParsedResourceFile, res: Ast.ParsedResource)
    requires res.kind == Ast.TemplateKind
    ensures Accept(Default(), syn, file, res).None?
  {
    DefaultFindByName();
  }

  /** With the default registry, a string resource is accepted with its
      text under the key of its name. */
  lemma {:induction false} DefaultAcceptsText(syn: Number.NumberSyntax, file: Ast.ParsedResourceFile, res: Ast.ParsedResource)
    requires res.kind == Ast.StringKind && res.value.Text?
    ensures Accept(Default(), syn, file, res)
            == Some((FromPath(res.name), ResourceNode(StringKind, StringValue(res.value.text), NewOrigin(file.path, file.isTest))))
  {
    DefaultFindByName();
  }
}
