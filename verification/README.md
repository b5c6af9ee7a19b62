# R-ressources resource compiler in Dafny

R-ressources is a build-time resource compiler for Rust. It reads XML resource files (strings, numbers, booleans, colours, URLs, dimensions, arrays, templates, `<ns>` namespaces, references `@type/key` and interpolated strings). It writes Rust constants and functions that the program includes at compile time. This project models its core as pure Dafny functions and proves what that core promises.

The model follows the repository's two pipelines and its runtime types.

**The current pipeline (`generator/`)**
- `Model`: resource keys, with `from_path`, `full_name` and the derived key order.
- `Graph`: the append-only, multi-valued resource graph.
- `Ast`: the parsed resources.
- `Registry`: the type registry.
- `Number`, `Template` and `Scalars`: the per-kind handlers that build nodes and emit Rust.
- `TemplateFormat`: what the functions `Template` emits return when called, as written and corrected.
- `Builder`: the graph builder.
- `Xml`, `Reader` and `Profile`: the reader and the profile filter, written as folds over a sequence of XML events.
- `Analysis`: duplicate reporting.
- `Tree` and `Emitter`: the namespace tree and the flat `r` module emitter.
- `Identifiers`: `sanitize_identifier`.

**The legacy pipeline (`codegen/`)**
- `LegacyTypes`: the value type and the classification of a string's text into a plain string, a reference or an interpolation.
- `LegacyReferences`: reference paths and reference validation.
- `LegacyResolve`: build-time resolution of references, with cycle detection and a termination proof.
- `LegacyTemplates`: template collection and the generated template functions.
- `LegacyParser`: the parser state machine.
- `LegacyStrings`, `LegacyAdvanced` and `LegacyFlat`: the module generators.

**The runtime types of `src/lib.rs`**
- `Runtime`: `Color` and `UrlParts`.

`Wrappers`, `Text` and `RustCode` hold shared helpers:
- Rust's text operations (`trim`, `split`, `escape_debug`, UTF-8 byte lengths).
- The shape of an emitted `pub const` line, with a decoder, so that emitter contracts can say which constant is declared.

**Abstractions**
- **XML.** XML is a list of events `Start(name, attrs) | Empty(name, attrs) | Text(t) | End(name) | Other | Error(position, message)`. Attributes form an ordered list, and a lookup takes the first match.
- **Floats and big decimals.** Parsing and formatting floats, and the check that a literal is a valid big decimal, come from libraries. They enter `Number` as a `NumberSyntax` parameter.
- **`HashMap` iteration order** is an explicit parameter. The parameter is a list of the map's types, each listed once.
- **`BTreeMap`** is modelled as a strictly sorted association list.
- **Mutable state and loops** become folds. Rust's `&mut` state threaded through a loop becomes a function from state to state.
- **Integers.** Integers are unbounded. The `i8`…`u64` ranges, and the 100-byte truncation in the emitter, are written out explicitly.

**Mid-refactor source**
The `generator/` tree is mid-refactor, and the model resolves its gaps as follows:
- `template.rs` uses `Template` variants of the parsed value, the resource value and the kind. `ast.rs` and `model.rs` lack them, so the model adds them.
- The default registry is kept exactly as written: string, number, bool and color, with no template handler. So the builder skips templates.
- `reader/mod.rs:40` uses the result of `handle_end`, but `handlers.rs:85` returns unit. The model follows `handle_end`: an end tag produces no resource.

**As written and corrected**
The members that make up the pipelines follow the source as written. Where the source is wrong, a separately named corrected member sits beside the as-written one, and "## Findings" lists the pair.
- `Emitter.EmitResource`, `Emitter.Annotation`, `Emitter.GenerateRModule` and `Emitter.GenerateRModuleOutcome` are as written: the note is the source's byte-100 slice, whose failure is the run's panic, escaped only for '"'. `Emitter.AnnotationCorrected`, `Emitter.Note` and `Emitter.EscapeNote` are the corrected forms.
- `Template.Emit` is as written. `TemplateFormat.CorrectedNamedBody` and `TemplateFormat.AppearanceArgs` are the corrected forms of its named and positional functions.
- `LegacyTemplates.EmitTemplateFunction` and `LegacyTemplates.TemplateBodyAsWritten` are as written, and so are `LegacyStrings.ItemCode` and `LegacyStrings.GenerateStringModule`, which use them. `LegacyTemplates.TemplateBody` is the corrected body.
- `LegacyParser.ParseResources` reads with the source's naming rule, `LegacyParser.StartNameAsWritten`. `LegacyParser.HandleStart` and `LegacyParser.Run` take the rule as a parameter, and `LegacyParser.StartName` is the corrected one.
- `LegacyAdvanced.GenerateColorModuleAsWritten`, `LegacyAdvanced.TypedColorLineAsWritten` and `LegacyAdvanced.ParseHexArgbAsWritten` are as written, with the panic. `LegacyAdvanced.ParseHexArgb` is the corrected parser. `LegacyAdvanced.GenerateColorModule` is the module the source returns whenever it does not panic. `LegacyAdvanced.GenerateUrlModule` and `LegacyAdvanced.GenerateDimensionModule` are as written.
- `LegacyFlat.GenerateRModuleAsWritten` is as written. `LegacyFlat.GenerateRModule` uses the corrected paths.
- `LegacyResolve.Resolve` is as written.

## Model

| member | source | states |
|---|---|---|
| Model.FromPath | generator/ir/model.rs:64-75 | `from_path` drops empty segments: no segment of the key holds '/' or is empty, and an empty name means the path was nothing but slashes, with an empty namespace |
| Model.FullNameOfPath | generator/ir/model.rs:64-82 | for a path whose '/'-separated segments are all non-empty, `full_name(from_path(p)) == p` |
| Model.FromPathOfFullName | generator/ir/model.rs:64-82 | a key whose name and namespace segments are non-empty and free of '/' is recovered by `from_path(full_name(k))`; `full_name` is the bare name when the namespace is empty |
| Model.KeyLessTotal | generator/ir/model.rs:46-50 | the derived key order is total: two keys are equal or one is below the other |
| Model.KeyLessTransitive | generator/ir/model.rs:46-50 | the derived key order is transitive |
| Model.KeyLessIrreflexive | generator/ir/model.rs:46-50 | no key is below itself |
| Model.KeyLessAsymmetric | generator/ir/model.rs:46-50 | a key below another is not above it |
| Model.KeyOrderByNamespaceThenName | generator/ir/model.rs:46-50 | keys compare by namespace first (lexicographically, segment by segment) and by name only when the namespaces are equal |
| Model.ParseNumberTypeOfAsStr | generator/ir/model.rs:121-136 | every number type is recovered from its `as_str` spelling, so the spellings are distinct |
| Model.ParseNumberType | generator/ir/model.rs:121-136 | a recognised spelling is exactly the `as_str` of the type it gives |
| Model.NewOrigin | generator/ir/model.rs:170-177 | `ResourceOrigin::new` keeps the file and test flag and records no line and no profile |
| Graph.Insert | generator/ir/model.rs:10-19 | `insert` returns true exactly when the key was present before; the key's list becomes the old list (or nothing) followed by the new node; every other key's list is unchanged |
| Graph.InsertEntries | generator/ir/model.rs:16-17 | inserting keeps the entries strictly ordered by key with no empty list, adds no key but the inserted one, and appends the node to that key's list |
| Graph.GetAllNonEmpty | generator/ir/model.rs:6-17 | every key present in the graph maps to a non-empty list |
| Graph.BuildGetAll | generator/ir/model.rs:31-37 | after a sequence of insertions, `get_all(k)` is exactly the nodes inserted under `k`, in insertion order, and `None` when there were none |
| Graph.BuildGet | generator/ir/model.rs:25-29 | after a sequence of insertions, `get(k)` is the first node inserted under `k` |
| Graph.BuildGetAbsent | generator/ir/model.rs:25-29 | after a sequence of insertions, `get(k)` is `None` exactly when no insertion used `k` |
| Graph.BuildHasDuplicates | generator/ir/model.rs:39-43 | after a sequence of insertions, `has_duplicates(k)` holds exactly when more than one node was inserted under `k` |
| Graph.InsertReportsDuplicate | generator/ir/model.rs:10-43 | right after an insertion, the key has duplicates exactly when `insert` returned true |
| Graph.BuildKeys | generator/ir/model.rs:5-17 | the keys of a built graph are exactly the distinct keys inserted, each stored once, so their number is the number of distinct keys |
| Graph.Keys | generator/ir/model.rs:6-23 | the keys are listed once per map entry, in the map's key order |
| Graph.InsertAllAppend | generator/ir/model.rs:10-19 | inserting one sequence of pairs and then another is inserting their concatenation |
| Graph.BuildIsInsertAll | generator/ir/model.rs:10-19 | a graph built from pairs is the empty graph with the pairs inserted in order |
| Registry.Register | generator/ir/types/mod.rs:53-56 | `register` appends the handler at the end and keeps the earlier handlers in place |
| Registry.All | generator/ir/types/mod.rs:81-84 | `all()` lists the handlers in registration order |
| Registry.FindByName | generator/ir/types/mod.rs:58-67 | `find_by_name` is `None` exactly when no handler has the name, and otherwise the first registered handler with it |
| Registry.FindByXmlTag | generator/ir/types/mod.rs:69-79 | `find_by_xml_tag` is `None` exactly when no handler lists the tag, and otherwise the first registered handler that does |
| Registry.Default | generator/ir/types/mod.rs:87-96 | the default registry holds string, number, bool and color handlers, in that order, and no template handler |
| Registry.DefaultFindByName | generator/ir/types/mod.rs:87-96 | in the default registry the names "string", "number", "bool" and "color" find their handlers and "template" finds none |
| Registry.DefaultFindByXmlTag | generator/ir/types/mod.rs:69-96 | in the default registry the tags "int" and "float" find the number handler and "template" finds none |
| Registry.RegisterKeepsFirstMatch | generator/ir/types/mod.rs:53-67 | registering a handler never changes what an already-matching name finds |
| Registry.Handler.BuildNode | generator/ir/types/mod.rs:27-32 | a node built by any handler has that handler's kind and the given origin |
| Registry.EmitMatchesKind | generator/ir/types/mod.rs:34-40 | each handler emits code exactly for values of its own variant and nothing for the others |
| Builder.Accept | generator/ir/builder.rs:36-68 | a resource is accepted exactly when a handler is registered under its kind's name and that handler builds a node; it is then keyed by `from_path(name)` with origin (file path, is_test) |
| Builder.IngestResourcesIsInsertAll | generator/ir/builder.rs:35-73 | ingesting a file inserts its accepted resources into the graph in file order |
| Builder.IngestFilesIsInsertAll | generator/ir/builder.rs:25-33 | ingesting files in order inserts all accepted resources of the first file, then of the next, and so on |
| Builder.FromParsedFilesGetAll | generator/ir/builder.rs:25-33 | the built graph stores under each key every accepted resource with that key, in file order, so the first file's definition is primary and duplicates are kept |
| Builder.FromParsedFilesKeyCount | generator/ir/builder.rs:25-33 | the graph has as many keys as there are distinct keys among the accepted resources |
| Builder.SkippedResource | generator/ir/builder.rs:62-67 | a resource that is not accepted leaves the graph as it was, so the other resources are unaffected |
| Builder.DefaultSkipsTemplates | generator/ir/builder.rs:57-64 | with the default registry a template resource is skipped, since no handler is named "template" |
| Builder.DefaultAcceptsText | generator/ir/builder.rs:36-68 | with the default registry a text string resource becomes a String node with its text, keyed by its path |
| Ast.StringResource | generator/parsing/ast.rs:32-41 | `ParsedResource::string` has kind String and a text value read back by `as_text` but not by `as_number` |
| Ast.NumberResource | generator/parsing/ast.rs:43-56 | `ParsedResource::number` has kind Number, its value read back by `as_number` and `as_text`, and its explicit type unchanged |
| Ast.BoolResource | generator/parsing/ast.rs:58-64 | `ParsedResource::bool` has kind Bool, its flag read back by `as_bool`, and no text |
| Ast.ScalarValue.AsText | generator/parsing/ast.rs:88-96 | `as_text` is present exactly for text and number values |
| Ast.ScalarValue.AsNumber | generator/parsing/ast.rs:98-104 | `as_number` is present exactly for number values |
| Ast.ScalarValue.NumberExplicitType | generator/parsing/ast.rs:106-114 | the explicit type is absent for every value that is not a number |
| Ast.ScalarValue.AsColor | generator/parsing/ast.rs:116-122 | `as_color` is present exactly for colour values |
| Ast.ScalarValue.AsBool | generator/parsing/ast.rs:124-130 | `as_bool` is present exactly for bool values |
| Number.ParseRustInt | generator/ir/types/number.rs:153-191 | `str::parse` for an integer type accepts only a decimal literal: the value is within the type's range, the text has no '.', 'e' or 'E', and it starts with a digit, a '+', or a '-' when the type is signed |
| Number.IntRoundTrip | generator/ir/types/number.rs:153-191 | every in-range integer printed in decimal parses back to itself, so the `to_string` the typed literal is re-rendered with preserves the value |
| Number.CountSignificantDigits | generator/ir/types/number.rs:228-253 | the loop counts the decimal digits that come before the first 'e' or 'E' |
| Number.ParseBigDecimal | generator/ir/types/number.rs:124-128 | the literal is accepted exactly when the BigDecimal syntax accepts it, is kept verbatim, and is otherwise rejected with "Invalid number literal '…'" |
| Number.ParseExplicitNumber | generator/ir/types/number.rs:130-208 | the trimmed, lower-cased hint picks the type; "bigdecimal" defers to the BigDecimal syntax; an unknown hint gives "Unsupported number type '…'"; an integer type succeeds exactly when the trimmed literal is in range, keeps its value, and otherwise fails with "'…' does not fit in <type>" |
| Number.ParseTyped | generator/ir/types/number.rs:152-207 | with a known type the result is `Typed` of that type; for an integer type it succeeds exactly when `str::parse` accepts the trimmed literal, its text parses back to the same value, and otherwise the error is "'…' does not fit in <type>" |
| Number.ParseNumberValue | generator/ir/types/number.rs:91-122 | a blank literal is an error; an explicit type decides alone; without one the result is `Int` exactly for a literal without '.', 'e', 'E' that fits i64, `Float` exactly for a non-integer literal of at most 15 significant digits that f64 accepts, and otherwise a verbatim `BigDecimal` or "Invalid number literal" |
| Number.ParseIgnoresSurroundingWhitespace | generator/ir/types/number.rs:95 | surrounding whitespace never changes the parse |
| Number.OversizedIntegerIsBigDecimal | generator/ir/types/number.rs:104-109 | a digit string beyond i64 falls back to a BigDecimal with the same text |
| Number.LongDecimalIsBigDecimal | generator/ir/types/number.rs:114-116 | a decimal with more than 15 significant digits is parsed as a BigDecimal, never as f64 |
| Number.ParseIntExamples | generator/ir/types/number.rs:295-316 | "42", "-42" and "  42  " parse to the integers 42, -42 and 42, and the empty literal is rejected |
| Number.ParseExplicitI8Accepts127 | generator/ir/types/number.rs:374-380 | "127" with hint "i8" is the typed literal "127" of type i8 |
| Number.ParseExplicitI8Rejects128 | generator/ir/types/number.rs:383-386 | "128" with hint "i8" is rejected with "'128' does not fit in i8" |
| Number.UnsignedRejectsMinus | generator/ir/types/number.rs:153-191 | an unsigned integer type rejects every literal that starts with a minus sign, with the error naming the literal and the type |
| Number.ParseExplicitU8RejectsNegative | generator/ir/types/number.rs:173-176 | "-1" with hint "u8" is rejected, since an unsigned parse refuses a minus sign |
| Number.EscapeLiteralPerChar | generator/ir/types/number.rs:282-284 | the two chained `replace` calls escape each character independently: '\\' becomes two backslashes and '"' becomes backslash-quote |
| Number.ComposeEscapes | generator/ir/types/number.rs:283 | replacing backslashes first and quotes second is the single per-character escape, so an inserted backslash is never escaped again |
| Number.EscapeLiteralIdentity | generator/ir/types/number.rs:517-518 | a literal with no backslash and no quote is emitted unchanged |
| Number.EscapeLiteralRoundTrip | generator/ir/types/number.rs:282-284 | reading the escaped literal back as a Rust string literal gives the original text |
| Number.BuildNode | generator/ir/types/number.rs:26-48 | a node is built exactly for a Number value whose literal parses; it has kind Number, the parsed value and the given origin |
| Number.Emit | generator/ir/types/number.rs:50-88 | code is emitted exactly for number values: an `i64` constant whose literal parses back to the integer, an `f64` constant with the float's rendering, a constant of the explicit type with its literal, or a lazily built BigDecimal static with the escaped literal, all named after the key's upper-cased identifier |
| Number.EmitNumber | generator/ir/types/number.rs:61-84 | an `Int`, `Float` or `Typed` number becomes a constant line that reads back as the number's name with type `i64`, `f64` or the typed name and the number's own literal; a `BigDecimal` becomes the lazily parsed static of its raw text |
| Number.TypedConst | generator/ir/types/number.rs:77-83 | a constant line reads back as exactly the indentation, name, type and literal it was written from |
| Template.DigitRunEnd | generator/ir/types/template.rs:207-242 | the digit loop stops at the first character after `k` that is not an ASCII digit, or at the end |
| Template.ContainsTemplatePlaceholdersMeaning | generator/ir/types/template.rs:199-227 | the peeking scan answers true exactly when the text holds a '%', one or more ASCII digits, a '$' and one of s, d, f, x, X |
| Template.CountPlaceholdersMeaning | generator/ir/types/template.rs:229-262 | the count is the number of distinct indices, among the well-formed placeholders, that fit a `usize`, so a repeated index counts once |
| Template.NoPercentNoPlaceholder | generator/ir/types/template.rs:199-262 | text without '%' has no placeholder and a count of zero |
| Template.RepeatedPlaceholderCountedOnce | generator/ir/types/template.rs:312 | "%1$s %1$s" counts one placeholder |
| Template.ConvertParam | generator/ir/types/template.rs:36-58 | a parameter keeps its name; Number, Bool and Color values keep their kind, a Number its explicit type, and every other value becomes a string parameter |
| Template.ConvertParams | generator/ir/types/template.rs:34-60 | the parameters are converted one for one, in order |
| Template.BuildNode | generator/ir/types/template.rs:25-93 | a node is built exactly for a template value, or for a text value whose resource is declared a template or whose text holds a placeholder; it has kind Template, the text, the converted parameters (none for text), and the given origin |
| Template.ParamRustType | generator/ir/types/template.rs:111-132 | string and colour parameters are `&str`, booleans `bool`, numbers their explicit type when it is a known type name, `r_resources::BigDecimal` for "bigdecimal", and `i64` otherwise |
| Template.ParamDecls | generator/ir/types/template.rs:133-136 | each parameter is declared as `name: type`, in order |
| Template.NamedParams | generator/ir/types/template.rs:108-135 | each named parameter is declared under its sanitised name with its Rust type, in declaration order |
| Template.NamedArgs | generator/ir/types/template.rs:147-151 | the format arguments are the sanitised parameter names, in declaration order |
| Template.PositionalParams | generator/ir/types/template.rs:168-171 | a template with n placeholders takes `arg1: &str` to `argN: &str` |
| Template.PositionalArgs | generator/ir/types/template.rs:186-189 | the format arguments are `arg1` to `argN` |
| Template.Emit | generator/ir/types/template.rs:95-196 | code is emitted exactly for template values and starts with the indentation; named parameters give a function of them; otherwise a text without placeholders gives a `&str` constant whose literal reads back as the text, and one with n placeholders a function of `arg1..argN`; what the functions return is stated by the `TemplateFormat` rows |
| Template.PositionalFormatPlain | generator/ir/types/template.rs:174-179 | the positional replacements leave a text without '%' unchanged |
| Template.NamedFormatPlain | generator/ir/types/template.rs:139-142 | the `{name}` replacements leave a text without '{' unchanged |
| TemplateFormat.ReplaceInterleave | generator/ir/types/template.rs:139-142 | replacing a pattern that occurs only as whole placeholders of an interleaved text replaces exactly those placeholders |
| TemplateFormat.NamedFormatFills | generator/ir/types/template.rs:138-157 | the format literal reads back as the format string, and applied to the arguments it fills the placeholders with the parameters in declaration order, whatever parameter each placeholder names, and fails when placeholders and parameters differ in number |
| TemplateFormat.NamedInOrderMeaning | generator/ir/types/template.rs:95-157 | when the placeholders name the parameters once each in declaration order, the emitted function returns what the template means |
| TemplateFormat.NamedOutOfOrder | generator/ir/types/template.rs:138-151 | as written: with two placeholders in the other order, each shows the other parameter's value |
| TemplateFormat.NamedRepeatedBreaks | generator/ir/types/template.rs:138-151 | as written: a placeholder used twice leaves a `{}` without an argument, so `format!` rejects the call |
| TemplateFormat.NamedSwapExample | generator/ir/types/template.rs:95-157 | as written: "{b} {a}" with parameters a then b returns "a b", where the template means "b a" |
| TemplateFormat.CorrectedNamedMeaning | generator/ir/types/template.rs:138-151 | corrected: a body that names each placeholder's argument returns what the template means, for placeholders in any order, repeats included |
| TemplateFormat.CorrectedSwapExample | generator/ir/types/template.rs:138-151 | corrected: "{b} {a}" returns "b a" |
| TemplateFormat.PositionalStages | generator/ir/types/template.rs:173-179 | the replacement rounds for indices 1 to m turn exactly the placeholders with those indices into `{}` |
| TemplateFormat.PositionalFills | generator/ir/types/template.rs:173-190 | the format literal reads back as the format string, and it fills the placeholders with `arg1` to `argN` in that order, whatever index each carries, and fails when there are not n placeholders |
| TemplateFormat.CollectOrder | generator/ir/types/template.rs:229-262 | the indices `count_placeholders` collects are the set of those it meets walking the text |
| TemplateFormat.CountInterleave | generator/ir/types/template.rs:229-262 | over a text of plain chunks and placeholders, the count is the number of distinct placeholder indices |
| TemplateFormat.PositionalInOrderMeaning | generator/ir/types/template.rs:159-190 | when the placeholders are `%1$…` to `%n$…` in that order, the emitted function takes n arguments and returns what the template means |
| TemplateFormat.PositionalSwapExample | generator/ir/types/template.rs:159-190 | as written: "%2$s %1$s" returns the first argument, then the second, where the template means the second, then the first |
| TemplateFormat.PositionalRepeatedBreaks | generator/ir/types/template.rs:159-190 | as written: "%1$s %1$s" counts one index, so one argument for two `{}`, and `format!` rejects the call |
| TemplateFormat.CorrectedPositionalMeaning | generator/ir/types/template.rs:173-190 | corrected: passing each placeholder the argument its index names, in order of appearance, returns what the template means, for placeholders in any order, repeats included |
| TemplateFormat.CorrectedSwapPositional | generator/ir/types/template.rs:173-190 | corrected: "%2$s %1$s" shows the second argument, then the first |
| TemplateFormat.CorrectedRepeatedPositional | generator/ir/types/template.rs:173-190 | corrected: "%1$s %1$s" shows the first argument twice |
| Scalars.StringBuildNode | generator/ir/types/string.rs:24-38 | a node is built exactly for a text value, of kind String with that text and the given origin |
| Scalars.StringEmit | generator/ir/types/string.rs:40-55 | code is emitted exactly for string values: one `&str` constant named after the key whose literal reads back as the text |
| Scalars.BoolBuildNode | generator/ir/types/bool.rs:24-38 | a node is built exactly for a bool value, of kind Bool with that flag and the given origin |
| Scalars.BoolEmit | generator/ir/types/bool.rs:40-56 | code is emitted exactly for bool values: one `bool` constant named after the key whose literal reads back as the flag |
| Scalars.ColorBuildNode | generator/ir/types/color.rs:24-38 | a node is built exactly for a colour value, of kind Color with that text and the given origin |
| Scalars.ColorEmit | generator/ir/types/color.rs:40-55 | code is emitted exactly for colour values: one `&str` constant named after the key whose literal reads back as the colour text |
| Scalars.StringBuildEmit | generator/ir/types/string.rs:24-55 | building then emitting a text resource gives a constant that reads back as the parsed text |
| Scalars.BoolBuildEmit | generator/ir/types/bool.rs:24-56 | building then emitting a bool resource gives a constant that reads back as the parsed flag |
| Reader.Qualify | generator/parsing/reader/handlers.rs:30-38 | the name of a value inside namespaces is the key's full name: the namespaces joined with '/', then the name |
| Reader.HandleStart | generator/parsing/reader/handlers.rs:8-40 | every start records its tag; `<ns>` pushes its name when it has one and forgets the current name; any other element keeps the stack, takes a `type` attribute only when it is a number tag, and sets the current name to the qualified `name` attribute when there is one |
| Reader.HandleText | generator/parsing/reader/handlers.rs:42-83 | text yields a resource only inside a named value element and only when its trimmed form is non-empty; string, number, bool and colour tags give the matching resource of the trimmed text (a number keeps the element's type); a bool yields one exactly for "true" or "false"; other tags yield nothing |
| Reader.HandleEnd | generator/parsing/reader/handlers.rs:85-102 | an end clears the tag; `</ns>` pops a namespace if there is one; a value tag forgets the current name; a number tag forgets the type |
| Reader.RunCons | generator/parsing/reader/mod.rs:27-57 | the event loop handles one event, then the rest, and the resources come out in event order |
| Reader.ParseSingleFile | generator/parsing/reader/mod.rs:17-64 | the parsed file keeps the raw file's path and test flag; an error names the file's path |
| Reader.FirstError | generator/parsing/reader/mod.rs:45-52 | finds the first error event, and none exactly when there is none |
| Reader.RunError | generator/parsing/reader/mod.rs:27-57 | the loop fails exactly when the events contain an error, and then with the first error's position and message |
| Reader.RunAppend | generator/parsing/reader/mod.rs:27-57 | reading two error-free event runs one after the other yields the first run's resources followed by the second's |
| Reader.RunOk | generator/parsing/reader/mod.rs:27-57 | error-free events are always read successfully |
| Reader.BalancedKeepsStack | generator/parsing/reader/handlers.rs:15-90 | a well-nested element tree whose `<ns>` elements all carry a name leaves the namespace stack as it found it |
| Reader.FinalStateAppend | generator/parsing/reader/mod.rs:27-57 | the state after two event runs is the state after the second run started from the state after the first |
| Reader.ValueElement | generator/parsing/reader/mod.rs:29-43 | a value element holding one text yields what its text yields and nothing more |
| Reader.NamespacedStringElement | generator/parsing/reader/mod.rs:88-105 | `<ns name="ns"><string name="n">text</string></ns>` yields the single string resource "ns/n" holding the trimmed text |
| Reader.InsideNamespace | generator/parsing/reader/handlers.rs:30-55 | a string element inside a named namespace yields a resource named namespace/name |
| Reader.ExplicitNumberType | generator/parsing/reader/handlers.rs:24-62 | a number element's `type` attribute is carried with its trimmed text |
| Reader.BoolTextDropped | generator/parsing/reader/handlers.rs:63-67 | a bool element whose trimmed text is neither "true" nor "false" yields nothing |
| Xml.AttrValue | generator/parsing/reader/utils.rs:3-13 | the lookup is `None` exactly when no attribute has the key, and otherwise the value of the first attribute that has it |
| Xml.FlattenAppend | generator/parsing/reader/mod.rs:27-57 | the events of two sibling runs of nodes are the first run's events followed by the second's |
| Profile.AttrText | generator/input/loader/profile.rs:163-167 | the attributes are written as ` key="value"`, nothing at all when there are none |
| Profile.Preprocess | generator/input/loader/profile.rs:8-61 | a tokenizer error returns the input unchanged; otherwise the output is what the event filter writes |
| Profile.RunError | generator/input/loader/profile.rs:18-59 | the filter loop fails exactly when the events contain an error |
| Profile.OutputGrows | generator/input/loader/profile.rs:92-190 | the filter only appends to what it has written |
| Profile.RunThen | generator/input/loader/profile.rs:18-59 | filtering two event runs in turn is filtering their concatenation |
| Profile.SkipInside | generator/input/loader/profile.rs:99-150 | inside a removed subtree nothing in a well-nested run of nodes is written and the depth is back where it started |
| Profile.FilterMatchesTree | generator/input/loader/profile.rs:92-190 | on a well-nested document the streaming filter writes exactly the serialised tree with every element for another profile removed, subtree and all |
| Profile.PreprocessDocument | generator/input/loader/profile.rs:6-61 | preprocessing a well-nested document gives the serialised tree without the elements for other profiles |
| Profile.KeptElementText | generator/input/loader/profile.rs:98-190 | an element for this profile is written as its start tag, its filtered children and its end tag |
| Profile.SkippedElement | generator/input/loader/profile.rs:98-154 | an element for another profile is removed with everything inside it, and the filter is outside any removed subtree after its end |
| Profile.EmptyElementKept | generator/input/loader/profile.rs:111-130 | a self-closing element is written exactly when it is outside a removed subtree and names no profile or this one; the depth is unchanged |
| Analysis.Files | generator/analysis/mod.rs:88-91 | the file list holds each node's file, in declaration order |
| Analysis.ReportedEntries | generator/analysis/mod.rs:85-86 | the entries reported are exactly those of the graph holding more than one node |
| Analysis.Messages | generator/analysis/mod.rs:85-114 | one message per reported entry, in the graph's key order, each carrying the entry's key |
| Analysis.ReportedSorted | generator/analysis/mod.rs:85 | the reported entries keep the graph's key order |
| Analysis.DuplicateReported | generator/analysis/mod.rs:85-113 | every key declared more than once gets a message |
| Analysis.ReportIsDuplicate | generator/analysis/mod.rs:85-113 | every message is for a key declared more than once and reads "Duplicate resource key '…' defined in N files. Using '<first file>' (first occurrence). Duplicates in: <other files>" |
| Analysis.ReportsOrdered | generator/analysis/mod.rs:85 | messages come in strictly increasing key order |
| Analysis.OneMessagePerDuplicate | generator/analysis/mod.rs:85-113 | a key gets a message exactly when it is declared more than once, and no key gets two |
| Analysis.NoDuplicatesNoMessages | generator/analysis/mod.rs:85-116 | a graph without duplicated keys gives no messages |
| Analysis.ValidateWithOptions | generator/analysis/mod.rs:79-117 | the messages are all errors when duplicates are treated as errors and all warnings otherwise |
| Analysis.Validate | generator/analysis/mod.rs:74-76 | by default the messages are warnings and there are no errors |
| Tree.Lookup | generator/generation/flat/tree.rs:19-22 | the child lookup finds a child of that name when there is one, and none exactly when no child has it |
| Tree.PutChild | generator/generation/flat/tree.rs:19-22 | writing a child back keeps the children sorted by name, makes the name find the new child, and leaves every other name's child as it was |
| Tree.InsertKey | generator/generation/flat/tree.rs:17-24 | walking a key's namespace and pushing it keeps every node's children sorted by name |
| Tree.InsertKeyAt | generator/generation/flat/tree.rs:17-24 | inserting a key appends it to the keys of the node at its path and changes the keys of no other node |
| Tree.InsertKeyNodes | generator/generation/flat/tree.rs:18-23 | inserting a key creates exactly the missing nodes along its namespace path |
| Tree.BuildTree | generator/generation/flat/tree.rs:13-27 | the built tree has its children sorted by name at every level |
| Tree.BuildTreeKeys | generator/generation/flat/tree.rs:16-25 | the node at a namespace path holds exactly the keys declared in that namespace, in map order |
| Tree.BuildTreeNodes | generator/generation/flat/tree.rs:18-23 | a node exists exactly at the root and at each prefix of some key's namespace |
| Tree.KeysInCount | generator/generation/flat/tree.rs:16-25 | a key is counted in the node of its own namespace as often as it occurs among the keys, and nowhere else |
| Tree.KeysOnce | generator/generation/flat/tree.rs:15-16 | the graph's key list holds each key once, however many nodes it has |
| Tree.KeyPlacedOnce | generator/generation/flat/tree.rs:15-25 | every graph key appears exactly once in the node reached by its namespace and in no other node, duplicates included |
| Tree.InsertByName | generator/generation/flat/tree.rs:31 | an insertion step of the sort adds the key and loses nothing |
| Tree.InsertByNameSorted | generator/generation/flat/tree.rs:31 | inserting into a name-ordered list keeps it name-ordered |
| Tree.SortKeys | generator/generation/flat/tree.rs:31 | sorting a node's keys is a permutation of them |
| Tree.SortKeysSorted | generator/generation/flat/tree.rs:31 | the sorted keys are in name order |
| Tree.SortKeysOfSorted | generator/generation/flat/tree.rs:31 | keys already in name order are left as they are, equal names included, as a stable sort does |
| Tree.SortTreeAt | generator/generation/flat/tree.rs:30-35 | sorting keeps every node where it was with the same keys, now in name order at every level |
| Tree.SortedTreeHoldsKey | generator/generation/flat/tree.rs:13-35 | after sorting, the node at a graph key's namespace exists and holds the key |
| Emitter.WarningFor | generator/generation/flat/emitter.rs:36-41 | a key has duplicate information exactly when some warning carries it, and then the message of the last such warning |
| Emitter.ValidateWarningFor | generator/generation/flat/emitter.rs:36-41 | with the warnings of `validate`, a key has duplicate information exactly when it is declared more than once, and it is the duplicate message for the key |
| Emitter.NoteAsWritten | generator/generation/flat/emitter.rs:102-106 | a warning of at most 100 bytes is the note; a longer one fails exactly when byte 100 is not a character boundary |
| Emitter.Note | generator/generation/flat/emitter.rs:102-106 | the note is the warning when it has at most 100 bytes, and otherwise its longest prefix of at most 100 bytes that ends on a character boundary, followed by "..." |
| Emitter.NoteProperties | generator/generation/flat/emitter.rs:102-106 | the note has at most 103 bytes, a truncated note starts with a prefix of the warning, and wherever the source's slice succeeds the note is the same |
| Emitter.NoteAsWrittenPanics | generator/generation/flat/emitter.rs:102-103 | a warning of 34 or more euro signs is longer than 100 bytes with byte 100 inside a character, so the slice fails, while the corrected note keeps 33 of them |
| Emitter.EscapeNoteAsWrittenBreaks | generator/generation/flat/emitter.rs:107-110 | a note holding a backslash before a character that starts no Rust escape gives a string literal that does not read back (`\x`, `\u`, a backslash before a newline and one before a carriage return and a newline are excluded: see "Left out") |
| Emitter.ResValuesBreaks | generator/generation/flat/emitter.rs:107-110 | a note naming the Windows path `res\values.xml` gives an invalid string literal |
| Emitter.NoQuoteUnchanged | generator/generation/flat/emitter.rs:109 | the source's escaping leaves a note without '"' unchanged |
| Emitter.EscapeNoteAsWrittenWithoutBackslash | generator/generation/flat/emitter.rs:109 | without a backslash in the note, the source's escaping reads back as the note |
| Emitter.EscapeNote | generator/generation/flat/emitter.rs:107-110 | the corrected escaping always gives a string literal that reads back as the note |
| Emitter.AnnotationNote | generator/generation/flat/emitter.rs:100-115 | corrected: the `#[deprecated(note = …)]` line, whose literal reads back as the note whatever the warning, then the `#[allow(dead_code)]` line, both indented |
| Emitter.AnnotationReadsBack | generator/generation/flat/emitter.rs:100-115 | as the source writes it: the `#[deprecated(note = …)]` line, whose literal reads back as the note when the warning holds no backslash (quotes and apostrophes included), then the `#[allow(dead_code)]` line, both indented |
| Emitter.FirstByKind | generator/generation/flat/emitter.rs:118-125 | the handler used is the first registered one whose kind is the node's, and none exactly when no handler has that kind |
| Emitter.EmitResource | generator/generation/flat/emitter.rs:92-126 | as written: with a warning the source's annotation comes first; with no handler for the node's kind nothing else is written; without a warning the code is the first matching handler's, or nothing when it emits none |
| Emitter.DefaultEmitResource | generator/generation/flat/emitter.rs:92-126 | with the default registry each kind is emitted by its own handler after the source's annotation, and a template node gives no code |
| Emitter.ChildBlocks | generator/generation/flat/emitter.rs:62-71 | one `pub mod` block per child namespace |
| Emitter.KeyBlocks | generator/generation/flat/emitter.rs:73-89 | one code block per key of the node |
| Emitter.EmitTreeOwnKey | generator/generation/flat/emitter.rs:73-89 | the code of a node holds the code of each of its own keys |
| Emitter.EmitTreeChild | generator/generation/flat/emitter.rs:62-71 | the code of a node holds the code of each child namespace, four spaces further in |
| Emitter.EmitTreeContains | generator/generation/flat/emitter.rs:55-90 | the code of a node holds the code of every key held below it, indented by four spaces per level of nesting |
| Emitter.GenerateRModule | generator/generation/flat/emitter.rs:49-52 | the module starts with "\npub mod r {\n" and ends with "}\n" |
| Emitter.EveryKeyEmitted | generator/generation/flat/emitter.rs:27-90 | every key of the graph is emitted from its first node: that code appears in the module, preceded by the source's annotation when the key has duplicate information, and indented by four spaces per namespace level below `r`. That the tree holds each key in one node only is `Tree.KeyPlacedOnce` |
| Emitter.GenerateRModuleOutcome | generator/generation/flat/emitter.rs:27-115 | the run panics exactly when some key of the graph has a warning whose byte-100 slice fails, and otherwise returns the module |
| Emitter.ShortWarningsReturn | generator/generation/flat/emitter.rs:102-106 | when no warning is longer than 100 bytes the run returns the module |
| Emitter.EuroWarningPanics | generator/generation/flat/emitter.rs:102-103 | a key of the graph whose warning is 34 or more euro signs makes the whole run panic |
| Identifiers.Sanitize | generator/utils.rs:6-16 | the result has the input's length, is an identifier, keeps exactly the alphanumeric characters and '_', and puts '_' everywhere else |
| Identifiers.SanitizeIdentity | generator/utils.rs:6-16 | a name that already is an identifier is left unchanged |
| Identifiers.SanitizeIdempotent | generator/utils.rs:6-16 | sanitising twice is sanitising once |
| Identifiers.SanitizeExamples | generator/utils.rs:22-28 | "hello-world", "app.name", "my_var" and "test123" give "hello_world", "app_name", "my_var" and "test123" |
| Identifiers.ConstName | generator/ir/types/string.rs:48-49 | the constant name keeps the length, is an identifier and has no lower-case ASCII letter |
| Text.Trim | generator/ir/types/number.rs:95 | `trim` removes the leading and trailing whitespace and nothing else: the result is a slice of the input without whitespace at either end, and empty only for all-whitespace input |
| Text.TrimIdempotent | generator/parsing/reader/handlers.rs:47 | trimming twice is trimming once |
| Text.Split | generator/ir/model.rs:66 | `split('/')` gives one more piece than there are separators, no piece holds the separator, and joining the pieces with it gives the input back |
| Text.IntToString | generator/ir/types/number.rs:156 | `to_string` of an integer is non-empty and starts with '-' exactly for a negative value |
| Text.NatToStringValue | generator/ir/types/template.rs:169 | the decimal rendering of a natural number reads back as that number |
| Text.BytePrefix | generator/generation/flat/emitter.rs:102-103 | the longest prefix of at most n UTF-8 bytes that ends on a character boundary |
| Text.EscapeDebugRoundTrip | generator/ir/types/string.rs:50 | reading back `escape_debug` of any text as the body of a Rust string literal gives the text |
| Text.EscapeDebugIdentity | generator/ir/types/string.rs:50 | text with no character that needs escaping is its own escape |
| Text.UnknownEscape | generator/generation/flat/emitter.rs:109 | a backslash before a character that starts no Rust escape makes the literal unreadable, whatever follows (`\x`, `\u`, a backslash before a newline and one before a carriage return and a newline are excluded: see "Left out") |
| RustCode.ConstLineRoundTrip | generator/ir/types/string.rs:51 | a `pub const` line reads back as its indentation, name, type and value |
| RustCode.StrConstRoundTrip | generator/ir/types/string.rs:47-51 | a `&str` constant line reads back as its parts, and its literal as the original text |
| LegacyTypes.TypeNameIsModule | codegen/types.rs:75-91 | every value that is not a reference names one of the ten value modules, and "string" exactly for strings, interpolations and templates |
| LegacyTypes.KeyEnd | codegen/types.rs:131-135 | the key ends at the first character that is not alphanumeric, '_' or '/', or at the end |
| LegacyTypes.KeyLength | codegen/types.rs:136-148 | the key taken is the scanned key, one character shorter exactly when the scanned key ends in '/' |
| LegacyTypes.Parts | codegen/types.rs:107-163 | the scan produces no empty text part and only keys made of key characters, and at least one part whenever there is an '@' |
| LegacyTypes.RenderAppend | codegen/types.rs:113-162 | rendering parts back to text distributes over concatenation |
| LegacyTypes.PartsRender | codegen/types.rs:107-163 | writing each text part as itself and each reference as `@type/key` gives back the scanned text exactly |
| LegacyTypes.KeyEndStops | codegen/types.rs:131-135 | a key of key characters followed by another character ends right there |
| LegacyTypes.ParseStringValue | codegen/types.rs:94-173 | the result is a Reference exactly for a whole-string reference (a leading and only '@', no space, a later '/'), split at the first '/'; a plain String, unchanged, exactly when there is no '@'; otherwise an interpolation of the scanned, non-empty parts |
| LegacyTypes.ParseStringValueRoundTrip | codegen/types.rs:94-173 | the text can be rebuilt from the classified value, whatever its variant |
| LegacyTypes.SpacedIsInterpolated | codegen/types.rs:96-168 | text holding both a space and an '@' is always an interpolation |
| LegacyTypes.WelcomeExample | codegen/types.rs:94-173 | "Welcome @string/app_name!" is the text "Welcome ", a reference to string/app_name, and the text "!" |
| LegacyReferences.FindIndex | codegen/generator/basic.rs:23 | the first item with the name, and none exactly when no item has it |
| LegacyReferences.Lookup | codegen/generator/basic.rs:22-30 | a value is found exactly when the type exists and one of its items has the key |
| LegacyReferences.SanitizeAll | codegen/references.rs:18-22 | each namespace segment is sanitised, in order |
| LegacyReferences.ReferencePathSegments | codegen/references.rs:11-35 | the path is the `::`-join of `crate` when asked for, the type, the sanitised non-empty namespace segments and the upper-cased last segment |
| LegacyReferences.ReferencePathExamples | codegen/references.rs:91-101 | ("string", "app_name", no prefix) gives "string::APP_NAME" and ("color", "primary", prefix) gives "crate::color::PRIMARY" |
| LegacyReferences.SingleSegmentPath | codegen/references.rs:24-31 | a key without '/' is a constant directly under the type module |
| LegacyReferences.RefsOf | codegen/references.rs:68-79 | a reference is checked as itself, an interpolation by its reference parts, and any other value not at all |
| LegacyReferences.PartRefs | codegen/references.rs:72-77 | the references checked in an interpolation are its reference parts |
| LegacyReferences.CheckReference | codegen/references.rs:43-64 | a reference gives at most one error, and none exactly when its type exists and holds its key |
| LegacyReferences.CheckRefsEmpty | codegen/references.rs:66-82 | a list of references gives no error exactly when all of them resolve |
| LegacyReferences.CheckItemsEmpty | codegen/references.rs:67-81 | the items of a type give no error exactly when all their references resolve |
| LegacyReferences.ValidateNothingIff | codegen/references.rs:38-85 | validation reports nothing exactly when every reference of every resource resolves, whatever order the types are visited in |
| LegacyReferences.CheckRefsCount | codegen/references.rs:66-82 | there is one error per reference that does not resolve |
| LegacyReferences.CheckReferenceMessages | codegen/references.rs:52-63 | a missing key gives "Unresolved reference in T.N: @type/key does not exist", a missing type "Invalid reference in T.N: resource type 'type' does not exist" |
| LegacyResolve.LookupExisting | codegen/generator/basic.rs:15-33 | every reference that can be followed is among the existing keys, which bounds the recursion |
| LegacyResolve.Resolve | codegen/generator/basic.rs:9-56 | as written: a key already being followed resolves to nothing, and so does a missing resource |
| LegacyResolve.Follow | codegen/generator/basic.rs:22-47 | the chain of n references from a resource: each resource but the last refers to the next |
| LegacyResolve.ResolveIffChain | codegen/generator/basic.rs:9-82 | a reference resolves to a text exactly when its chain of references reaches that text, a plain string or a resolved interpolation, without visiting any resource twice or one already being followed |
| LegacyResolve.ChainResolves | codegen/generator/basic.rs:9-82 | a chain that reaches a text without revisiting a resource is what resolution returns |
| LegacyResolve.ResolveHasChain | codegen/generator/basic.rs:9-82 | whatever resolves has a chain that reaches it |
| LegacyResolve.ChainBounded | codegen/generator/basic.rs:9-33 | a chain that reaches a text follows fewer references than there are resources |
| LegacyResolve.FewerUnvisited | codegen/generator/basic.rs:20 | marking an existing, unvisited key as visited leaves strictly fewer unvisited keys, so resolution terminates |
| LegacyResolve.ResolveParts | codegen/generator/basic.rs:60-82 | resolving interpolation parts always gives a text |
| LegacyResolve.ResolvePartsAppend | codegen/generator/basic.rs:66-80 | the parts are resolved one by one and their texts concatenated |
| LegacyResolve.ResolveTextOnly | codegen/generator/basic.rs:68-70 | parts without references resolve to their own text |
| LegacyResolve.PlainTextResolves | codegen/generator/basic.rs:60-82 | the scanned parts of a text without '@' resolve to the text |
| LegacyResolve.CycleIsNone | codegen/generator/basic.rs:15-19 | a reference already being followed resolves to nothing |
| LegacyResolve.ResolveDirect | codegen/generator/basic.rs:22-56 | a missing resource resolves to nothing, a plain string to itself, and a value that is not text to nothing |
| LegacyResolve.SelfReference | codegen/generator/basic.rs:15-33 | a resource that refers to itself resolves to nothing |
| LegacyResolve.MutualReference | codegen/generator/basic.rs:15-33 | two resources that refer to each other resolve to nothing |
| LegacyResolve.ReferenceChain | codegen/generator/basic.rs:15-56 | a reference to a reference to a string resolves to the string |
| LegacyResolve.InterpolationSubstitutes | codegen/generator/basic.rs:60-82 | an interpolation whose reference names a string reads as the text with the string in its place |
| LegacyResolve.UnresolvedPlaceholder | codegen/generator/basic.rs:74-77 | a reference part that does not resolve is written '@' and its key, without its type |
| LegacyResolve.InterpolatedNeverInvalid | codegen/generator/basic.rs:117-120 | the "@invalid" fallback of an interpolated constant is never used, since part resolution always succeeds |
| LegacyTemplates.ParamTypeOfName | codegen/parser/templates.rs:46-52 | each type name selects its type in any letter case, and any other name falls back to a string parameter |
| LegacyTemplates.AddParam | codegen/parser/templates.rs:41-58 | the parameter is appended after the earlier ones, which are kept, and the template text is untouched |
| LegacyTemplates.FinalizeTemplate | codegen/parser/templates.rs:61-75 | a template value results exactly when the template text is present and not empty, and it carries the collected parameters |
| LegacyTemplates.FinalizeAfterReset | codegen/parser/templates.rs:20-75 | after a reset there is nothing left to finalize |
| LegacyTemplates.FindParam | codegen/generator/basic.rs:204-205 | the first parameter with the name, and none exactly when no parameter has it |
| LegacyTemplates.ParseStep | codegen/generator/basic.rs:186-233 | at a `{name}` the escaped text before it is kept, a declared name becomes `{}` with its sanitized name as argument, and an unknown one becomes `\{name\}` |
| LegacyTemplates.UnknownPlaceholderBreaks | codegen/generator/basic.rs:207-213 | a declared placeholder followed by an unknown one yields a literal with the escape `\{`, which does not compile, although the template has a meaning |
| LegacyTemplates.UnescapeAfterEscape | codegen/generator/basic.rs:196-229 | a piece written with `escape_debug` reads back as itself from the literal, whatever follows it |
| LegacyTemplates.AsWrittenFormatMeaning | codegen/generator/basic.rs:186-233 | as written: when every brace of the template belongs to a declared placeholder, the source's format string applied to its arguments gives what the template means |
| LegacyTemplates.DeclaredPlaceholdersWork | codegen/generator/basic.rs:160-233 | as written: a template with at least one placeholder, all of them declared and no other brace, gets a `format!` body that returns what the template means |
| LegacyTemplates.EmitTemplateFunction | codegen/generator/basic.rs:130-180 | as written: the generated function holds the source's body line, `format!` of the parsed literal and arguments, or the literal with every backslash removed when there is no argument |
| LegacyTemplates.DeclaredTemplateFunction | codegen/generator/basic.rs:130-233 | as written: the generated function of a template whose braces are all declared placeholders, with at least one, returns what the template means |
| LegacyTemplates.CorrectFormatMeaning | codegen/generator/basic.rs:186-233 | the corrected format string applied to its arguments gives what the template means, for every template |
| LegacyTemplates.NoArgsMeaning | codegen/generator/basic.rs:170-177 | a template with no declared placeholder means its own text |
| LegacyTemplates.TemplateBodyMeaning | codegen/generator/basic.rs:130-180 | the corrected body compiles and returns what the template means, for every template and parameter list |
| LegacyTemplates.QuoteBreaksNoArgs | codegen/generator/basic.rs:170-177 | with no arguments the source strips every backslash, so the template `"hi"` gives a literal that does not compile; the corrected body returns the text |
| LegacyTemplates.HelloExample | codegen/generator/basic.rs:128-129 | "Hello {name}!" with a string parameter gives `format!("Hello {}!", name)`, which greets its argument |
| LegacyTemplates.ParamDeclRoundTrip | codegen/generator/basic.rs:140-155 | a parameter declaration reads back as the sanitized name and the declared type |
| LegacyTemplates.ParamDecls | codegen/generator/basic.rs:140-155 | one declaration per parameter, in order |
| LegacyParser.Push | codegen/parser/advanced.rs:15-18 | the pair is appended to its type's list, which is created when missing, and every other type is left alone |
| LegacyParser.QualifiedNamePath | codegen/parser/mod.rs:104-109 | a name read inside namespaces is the '/'-path of the namespaces ending in the local name |
| LegacyParser.StartNameAsWritten | codegen/parser/mod.rs:97-110 | as the source computes it: an `ns` tag clears the name; any other tag with a name attribute, a template's `<param>` included, names the value, qualified by the namespaces; a tag without one keeps the name |
| LegacyParser.StartName | codegen/parser/mod.rs:97-110 | corrected naming: as written, except that a template's `<param>` keeps the element's name |
| LegacyParser.ParamAttributes | codegen/parser/mod.rs:145-165 | a parameter is added exactly when both its name and its type are given |
| LegacyParser.HandleStart | codegen/parser/mod.rs:71-130 | the tag is recorded; the name follows `StartNameAsWritten` under the source's naming rule and `StartName` under the corrected one; an `ns` with a name is pushed; an array tag starts an empty item list; a `string` with a template attribute starts a template; a `<param>` inside a template adds a parameter; nothing else changes |
| LegacyParser.HandleEmpty | codegen/parser/mod.rs:134-142 | a self-closing tag only matters as a template parameter |
| LegacyParser.ColorValueOf | codegen/parser/advanced.rs:10-14 | a color starting with '@' is read as a string value, anything else is the color itself |
| LegacyParser.ColorNeverPlainString | codegen/parser/advanced.rs:10-14 | a color is a color, a reference or an interpolation, never a plain string |
| LegacyParser.HandleText | codegen/parser/mod.rs:168-193 | trimmed non-empty text inside an array item is appended to the items; otherwise, with a name and outside a template, a color, URL or dimension is filed under the name; empty text, a template or a missing name files nothing |
| LegacyParser.HandleEnd | codegen/parser/mod.rs:196-232 | an array's end files its items and leaves the array; a `</string>` in a template files the finalized template and resets it; a `</ns>` pops one namespace; the tag is always cleared |
| LegacyParser.ParseResources | codegen/parser/mod.rs:40-67 | reading with the source's naming rule fails exactly when the tokenizer reports an error |
| LegacyParser.RunFails | codegen/parser/mod.rs:55-61 | a stream with an error anywhere in it fails |
| LegacyParser.RunFinal | codegen/parser/mod.rs:48-67 | a stream without errors yields the resources read by its events in order |
| LegacyParser.RunError | codegen/parser/mod.rs:55-61 | the first tokenizer error ends the run with its position and message, whatever was read before it |
| LegacyParser.FinalAppend | codegen/parser/mod.rs:48-65 | reading two streams one after the other is reading their concatenation |
| LegacyParser.ColorElement | codegen/parser/mod.rs:71-232 | `<color name="k">text</color>` files the trimmed color under k, qualified by the namespaces, and leaves the namespaces and the template alone |
| LegacyParser.TemplateStart | codegen/parser/mod.rs:119-129 | a `string` element with a template attribute, read at the top level, starts an empty template under the element's name |
| LegacyParser.TemplateEnd | codegen/parser/mod.rs:214-224 | `</string>` ending a template with one parameter files that template under the element's name and returns to the top state |
| LegacyParser.ParamEnd | codegen/parser/mod.rs:196-232 | closing a `<param>` tag outside an array files nothing and keeps the template being collected |
| LegacyParser.TemplateWithEmptyParam | codegen/parser/mod.rs:119-224 | a template element with a self-closing `<param/>` files the template with that parameter under the element's name and returns to the top state |
| LegacyParser.ParamElementDocument | codegen/parser/mod.rs:97-224 | with the parameter written as an open and a close tag, the template is filed under the element's name with the corrected naming and under the parameter's name with the source's |
| LegacyParser.ParamOpenClose | codegen/parser/mod.rs:97-232 | an open and a close `<param>` inside a template collect the parameter, file nothing, and leave the name the naming rule gives |
| LegacyParser.TemplateWithParamElement | codegen/parser/mod.rs:97-224 | corrected naming: the template with an open-and-close parameter is filed under the element's name |
| LegacyParser.ParamRenamesTemplate | codegen/parser/mod.rs:103-224 | as written: the template with an open-and-close `<param name="p">` is filed under p, not under the element's name |
| LegacyParser.ItemElement | codegen/parser/mod.rs:178-179 | `<item>text</item>` inside an array appends the trimmed text to the items and files nothing |
| LegacyParser.ArrayItems | codegen/parser/mod.rs:113-212 | the items of an array reach the array handler in document order when the array ends, and the reader returns to the top state |
| LegacyStrings.StringConstHolds | codegen/generator/basic.rs:85-94 | a string constant's literal is the escaped text and reads back as exactly the text |
| LegacyStrings.Segments | codegen/generator/basic.rs:251 | the pieces of a name are non-empty and hold no '/' |
| LegacyStrings.InsertName | codegen/generator/basic.rs:250-261 | inserting a name keeps the namespace tree well formed (children sorted by name, each once) |
| LegacyStrings.BuildItemTree | codegen/generator/basic.rs:263-266 | the tree of all resources is well formed |
| LegacyStrings.BuildItemTreeItems | codegen/generator/basic.rs:250-266 | the node at a namespace path holds exactly the leaves of the names whose sanitized namespaces are that path, in resource order |
| LegacyStrings.ItemPlaced | codegen/generator/basic.rs:250-266 | every name with a segment is held, with its value, in the node of its namespaces |
| LegacyStrings.EmitNodeOwnItem | codegen/generator/basic.rs:280-299 | a node's code holds the code of each of its own items |
| LegacyStrings.EmitNodeChild | codegen/generator/basic.rs:275-279 | a node's code holds each child's code, one level deeper, inside its `pub mod` block |
| LegacyStrings.EmitNodeContains | codegen/generator/basic.rs:268-300 | an item held at a path below a node is emitted in the node's code, indented four spaces per level |
| LegacyStrings.ItemInTreeEmitted | codegen/generator/basic.rs:268-300 | an item the tree holds under a name's namespaces is emitted in the module body, indented four spaces per namespace level |
| LegacyStrings.IntsOnly | codegen/generator/basic.rs:324 | exactly the integer values enter the int module's tree |
| LegacyStrings.BoolsOnly | codegen/generator/basic.rs:378 | exactly the boolean values enter the bool module's tree |
| LegacyStrings.ItemEmitted | codegen/generator/basic.rs:236-306 | every resource with a segment is emitted at the depth of its namespaces |
| LegacyStrings.ReferencedPath | codegen/references.rs:11-35 | a reference to a name points into its sanitized namespaces and ends in its upper-case leaf |
| LegacyStrings.StringEmittedWhereReferenced | codegen/generator/basic.rs:236-306 | a reference to a string resource resolves to `crate::string`, its namespaces and its upper-case leaf, and the string module holds the resource's code inside those namespaces; for text, a reference or an interpolation that code declares exactly the referenced constant, while a template is declared as a function of its lower-case leaf (see `LegacyStrings.TemplateReferenceMisses`) |
| LegacyStrings.ItemDeclares | codegen/generator/basic.rs:280-296 | an item's code opens with its declaration: `pub const <UPPER-CASE LEAF>: &str = ` for text, a reference or an interpolation, `#[must_use]` and `pub fn <lower-case leaf>(` for a template |
| LegacyStrings.TemplateReferenceMisses | codegen/references.rs:24-31 | a reference to a template ends in the upper-case leaf, which differs from the lower-case function name the template is declared under whenever the leaf has a lower-case letter, so the reference names nothing the string module declares |
| LegacyTemplates.FunctionHead | codegen/generator/basic.rs:160-161 | a generated template function opens with `#[must_use]` and `pub fn <name>(` at the item's indentation |
| LegacyStrings.PlainStringEmitted | codegen/generator/basic.rs:283-285 | a plain string becomes a `&str` constant named after its upper-case leaf, at the depth of its namespaces |
| LegacyStrings.IntEmitted | codegen/generator/basic.rs:309-333 | every integer resource becomes an `i64` constant in the int module, at the depth of its namespaces |
| LegacyStrings.BoolEmitted | codegen/generator/basic.rs:363-387 | every boolean resource becomes a `bool` constant in the bool module, at the depth of its namespaces |
| LegacyAdvanced.ParseU8Hex | codegen/generator/advanced.rs:114-123 | a byte is read only from ASCII text |
| LegacyAdvanced.HexBytes | codegen/generator/advanced.rs:112-126 | the number of bytes read is the number asked for |
| LegacyAdvanced.Hex2Parses | codegen/generator/advanced.rs:114 | two upper-case hexadecimal digits read back as their byte |
| LegacyAdvanced.AsHexRoundTrip | codegen/generator/advanced.rs:110-128 | the hex text of every colour parses back to its alpha, red, green and blue |
| LegacyAdvanced.HexBytesAsWritten | codegen/generator/advanced.rs:112-126 | when the byte slices do not panic, the number of bytes read is the number asked for |
| LegacyAdvanced.AsciiHexBytes | codegen/generator/advanced.rs:114-123 | on ASCII text byte slicing never panics and reads the same bytes as character slicing |
| LegacyAdvanced.ParsedIsAscii | codegen/generator/advanced.rs:114-123 | whenever the byte-sliced parse succeeds, the text was ASCII |
| LegacyAdvanced.ParseHexArgbAgrees | codegen/generator/advanced.rs:110-128 | whenever the source does not panic, the corrected parser returns what it returns |
| LegacyAdvanced.EuroColorPanics | codegen/generator/advanced.rs:112-114 | "#a€bc" is six bytes, so `&hex[0..2]` cuts the euro sign and the build panics; the corrected parser rejects it |
| LegacyAdvanced.PlusSignsAccepted | codegen/generator/advanced.rs:114-116 | `from_str_radix` accepts a leading '+', so "#+1+2+3" is the opaque colour (1, 2, 3) |
| LegacyAdvanced.Find | codegen/generator/advanced.rs:131 | the first occurrence of the pattern, and none exactly when it does not occur |
| LegacyAdvanced.SplitHost | codegen/generator/advanced.rs:132-136 | the host holds no '/', the path starts with '/', and host and path rebuild the rest (a "/" path is added when there was none) |
| LegacyAdvanced.SplitUrlPartsWhen | codegen/generator/advanced.rs:131 | a URL splits exactly when it contains "://" |
| LegacyAdvanced.SplitUrlPartsSpec | codegen/generator/advanced.rs:130-137 | the scheme holds no "://", the host no '/', the path starts with '/', and the parts rebuild the URL |
| LegacyAdvanced.SplitUrlOf | codegen/generator/advanced.rs:130-137 | scheme://host/path splits into the scheme, the host and "/path" |
| LegacyAdvanced.SplitUrlExample | codegen/generator/advanced.rs:130-137 | "https://example.com/docs" splits into "https", "example.com" and "/docs" |
| LegacyAdvanced.TypedColorLine | codegen/generator/advanced.rs:35-43 | a typed line is written exactly for a colour value whose hex text parses |
| LegacyAdvanced.TypedColorLineAsWritten | codegen/generator/advanced.rs:34-43 | as written: the line panics exactly when the source's parse of a colour's text panics, and is otherwise the typed line |
| LegacyAdvanced.TypedColorLinesAsWritten | codegen/generator/advanced.rs:34-45 | as written: the lines panic exactly when one of them does, and are otherwise the typed lines in order |
| LegacyAdvanced.GenerateColorModuleAsWritten | codegen/generator/advanced.rs:8-53 | as written: the module panics exactly when some colour's text makes the source's parse panic, and is otherwise the module of the typed lines |
| LegacyAdvanced.EuroColorModulePanics | codegen/generator/advanced.rs:8-53 | the colour "#a€bc" anywhere in the list makes the module panic |
| LegacyAdvanced.TypedUrlLine | codegen/generator/advanced.rs:73-82 | a typed line is written exactly for a URL value that splits |
| LegacyAdvanced.Lines | codegen/generator/advanced.rs:11-30 | one line per resource, in order |
| LegacyAdvanced.ColorConstEmitted | codegen/generator/advanced.rs:15-21 | every colour value is emitted as a `&str` constant holding its escaped text |
| LegacyAdvanced.TypedColorEmitted | codegen/generator/advanced.rs:34-43 | a colour written as the hex text of a colour is emitted in `color_t` as `Color::new` of that colour's bytes |
| LegacyAdvanced.TypedUrlEmitted | codegen/generator/advanced.rs:72-85 | every URL that splits is emitted in `url_t` |
| LegacyAdvanced.DimensionEmitted | codegen/generator/advanced.rs:90-106 | every dimension value is emitted in the dimension module as a `&str` constant named after its upper-case sanitized name and holding its escaped text |
| LegacyFlat.UsesMembers | codegen/generator/flat.rs:40-49 | a `pub use` is written exactly for a resource the export does not skip |
| LegacyFlat.UsesAppend | codegen/generator/flat.rs:41-48 | the `pub use` items of a list follow the list order |
| LegacyFlat.UseLines | codegen/generator/flat.rs:46-47 | each exported resource gives one `pub use` line, in the order of the resources |
| LegacyFlat.ExportBodies | codegen/generator/flat.rs:13-29 | each type in the fixed list gives its own export text, in the list's order |
| LegacyFlat.UnnamedSkipped | codegen/generator/flat.rs:42-45 | a resource with an empty name is skipped |
| LegacyFlat.AbsentTypeEmpty | codegen/generator/flat.rs:40 | a type with no resources exports nothing |
| LegacyFlat.TypedFlatEmpty | codegen/generator/flat.rs:26-29 | without `color_t` or `url_t` entries the `r_t` module is empty |
| LegacyFlat.ExportOrder | codegen/generator/flat.rs:13-22 | the types are exported one after the other in the fixed order |
| LegacyFlat.Exported | codegen/generator/flat.rs:9-32 | every resource of a listed type that is not skipped has its `pub use` line in `r` |
| LegacyFlat.AsWrittenExported | codegen/generator/flat.rs:9-49 | as written, `r` holds `pub use crate::{type}::{NAME};` for every resource with a non-empty name in a listed type, NAME its whole sanitized name in upper case |
| LegacyFlat.AsWrittenLine | codegen/generator/flat.rs:46-47 | as written, a resource is imported as `crate::type::NAME` with NAME its whole sanitized name in upper case |
| LegacyFlat.CorrectedAgrees | codegen/generator/flat.rs:46-47 | for a name without namespaces that is not a template, the corrected export is the source's |
| LegacyFlat.NamespacedAsWrittenPath | codegen/generator/flat.rs:46-47 | as written, a namespaced name is imported from a three-segment path, while the module declares it deeper |
| LegacyFlat.NamespacedPairBreaks | codegen/generator/flat.rs:46-47 | for `ns/leaf` the imported path is not where the string module declares it |
| LegacyFlat.PairPath | codegen/generator/flat.rs:46-47 | a resource `ns/leaf` is declared at `crate::<type>::ns::LEAF` |
| LegacyFlat.NamespacedExportBreaks | codegen/generator/flat.rs:46-47 | "auth/title" is imported as `crate::string::AUTH_TITLE`, which the string module does not declare (it declares `crate::string::auth::TITLE`) |
| LegacyFlat.TemplateAsWrittenName | codegen/generator/flat.rs:46-47 | as written, a template whose name has a lower-case letter is imported under an upper-case name the module does not declare |
| LegacyFlat.TemplateExportBreaks | codegen/generator/flat.rs:46-47 | the template "greeting" is imported as `GREETING`, while the string module declares `fn greeting` |
| LegacyFlat.CorrectedStringPath | codegen/generator/flat.rs:46-47 | corrected, a string resource is imported from the path where the string module declares it |
| LegacyFlat.CorrectedIntPath | codegen/generator/flat.rs:46-47 | corrected, an integer resource is imported from the path where the int module declares it |
| LegacyFlat.CorrectedIntUse | codegen/generator/flat.rs:46-47 | corrected, a namespaced integer is imported from its namespace path, under its upper-case leaf name |
| Runtime.HexDigit | src/lib.rs:147 | the digit is an upper-case hexadecimal digit |
| Runtime.Hex2 | src/lib.rs:147-149 | `{:02X}` writes two upper-case hexadecimal digits |
| Runtime.AsHex | src/lib.rs:145-151 | "#RRGGBB" for an opaque colour and "#AARRGGBB" otherwise, all upper-case digits |
| Runtime.AsU32Bytes | src/lib.rs:161-166 | each byte of the colour is read back from its `u32`: alpha on top, then red, green and blue |
| Runtime.AsU32Injective | src/lib.rs:161-166 | two colours with the same `u32` are the same colour |
| Runtime.AsRgbLowBytes | src/lib.rs:155-166 | the RGB tuple is the `u32` without its alpha byte |
| Runtime.ColorExample | tests/v04_typed.rs:5-11 | the colour (0x12, 0x34, 0x56, 0x78) is 0x78123456, has RGB (0x12, 0x34, 0x56) and hex "#78123456" |
| LegacyReferences.CheckRefs | codegen/references.rs:66-82 | at most one error per reference checked |
| LegacyReferences.ValidateEmpty | codegen/references.rs:38-85 | validation over the types in any visiting order reports nothing exactly when every item of every visited type resolves |
| LegacyFlat.ExportedInList | codegen/generator/flat.rs:40-49 | every resource of a type that is not skipped has its `pub use` line in that type's export |

## Left out

- Filesystem, environment and orchestration are left out, because they only read directories, environment variables and `OUT_DIR`, or only sequence the stages:
  - directory loading and scanning, `codegen/multi_file.rs`, `write_generated_code`, `build()` and `build.rs`;
  - `generator/pipeline.rs` and `generator/generation/mod.rs` (its fixed prelude);
  - `codegen/generator/mod.rs` and the error `Display` impls.
- The `PROFILE` environment value becomes the `current` parameter of the profile filter, because reading the environment is I/O.
- The quick_xml tokenizer and `reader/utils.rs` glue: XML is the event list described above. Tokenizer errors are `Error` events that carry the position and message.
- The profile filter's re-serialisation is modelled on events, and attribute values are kept as text. Escaping inside attribute values is quick_xml's.
- Floating point is left out. This covers:
  - `format_float`, the f32/f64 parses and the float module's values;
  - `Position`, `LatLng`, and `handle_position`/`handle_latlng` (which are also dead code).
  - The decision whether a literal is a valid big decimal is a `NumberSyntax` parameter.
- `escape_debug` is modelled on the subset that escapes `\`, `"`, `'`, newline, carriage return, tab and NUL, and keeps every other character. The `\u{…}` escapes for other control and grapheme-extending characters are left out.
- `is_alphanumeric`, `to_uppercase` and `to_lowercase` are modelled on ASCII only, because the Unicode tables are data, not logic.
- Files that are not part of this model:
  - `codegen/utils.rs`: the legacy `sanitize_identifier` reuses `Identifiers.Sanitize` from `generator/utils.rs`.
  - `codegen/parser/basic.rs` and `codegen/parser/arrays.rs`: the handlers for strings, numbers, booleans and arrays are the `Handlers` parameter of `LegacyParser`.
  - `codegen/generator/arrays.rs`: the array modules are not modelled.
- `codegen/environment.rs` and the legacy float module are not modelled.
- The exact text of the `LazyLock`/`BigDecimal` wrappers and the `#[must_use]` lines is generated but carries no contract beyond the function line of a template.
- `Reader.HandleEnd`: an end tag produces no resource, because `handle_end` returns unit. So templates never come out of the current reader, and `<param>` collection in the current reader is left out.
- `Runtime.AsRgb` and the `UrlParts` accessors are plain fields of the datatypes. `AsRgb` gets its property through `Runtime.AsRgbLowBytes`.
- `Runtime.AsU32` writes `a << 24 | r << 16 | g << 8 | b` as a sum. The bytes occupy disjoint bits, so the OR equals the sum.
- `tests/v04_typed.rs` calls `r()`, `to_rgb_tuple()` and `to_rgba_u32()`, which `src/lib.rs` does not define. The model follows `src/lib.rs` (`as_rgb`, `as_u32`) and takes only the test's values.
- `LegacyResolve`: the source inserts a key into a mutable `visited` set before recursing and removes it afterwards. The model passes the set down unchanged instead. That the set is the same before and after a call holds by construction, not by a lemma.
- `LegacyReferences.ValidateNothingIff` takes the `HashMap` visiting order as a parameter, and holds for every order. The order of the error messages is therefore only fixed relative to that parameter.
- `LegacyAdvanced.ParseU8Hex`: its contract says only that the text is ASCII. Its value is stated by `LegacyAdvanced.Hex2Parses` and `LegacyAdvanced.PlusSignsAccepted`.
- `LegacyAdvanced.TypedColorLine` and `LegacyAdvanced.GenerateColorModule`: they use the corrected `ParseHexArgb` and never panic. The source's panic on non-ASCII six- or eight-byte colour text (advanced.rs:110-128) is stated by `LegacyAdvanced.TypedColorLineAsWritten` and `LegacyAdvanced.GenerateColorModuleAsWritten`. These return exactly those lines and that module whenever the source does not panic.
- `LegacyStrings.InsertName`, `LegacyStrings.BuildItemTree`: their contracts state well-formedness only. The contents of the tree are stated by `LegacyStrings.BuildItemTreeItems`.
- `LegacyStrings.TemplateReferenceMisses`: a reference to a template, such as `@string/greeting`, emits `crate::string::GREETING`, while the string module declares only the function `greeting`. The model states the mismatch and does not correct it, because the source gives a template reference no `&str` meaning to resolve to.
- `LegacyFlat`: the corrected export skips a name made only of '/', because no module declares it. The source exports it anyway.
- `LegacyFlat.TypedFlatEmpty`: `r_t` re-exports from `color_t`/`url_t` keys, which no parser handler in the model creates. So `r_t` is always empty here. This is stated, not claimed as a bug, because `codegen/parser/basic.rs` is not part of this model.
- `Text.UnescapeCode` reads the escapes `\n`, `\r`, `\t`, `\\`, `\0`, `\'` and `\"` only. The `\x..` and `\u{..}` escapes and the backslash-newline continuation are left out, because `escape_debug` as modelled never writes them.
- `Text.UnknownEscape`: because of that, it says nothing about a backslash before 'x', 'u' or a newline. Nor does it speak of a backslash before a carriage return followed by a newline. Rust reads that line ending as a newline, so the pair is a line continuation.
- `Emitter.EscapeNoteAsWrittenBreaks`: for the same reasons, it says nothing about a backslash before 'x', 'u', a newline, or a carriage return followed by a newline.
- `Emitter.EveryKeyEmitted`: it states that each key's code appears in the module, not that it appears only once. Counting occurrences in the emitted text is left out. `Tree.KeyPlacedOnce` states that the tree the module is emitted from lists each key in exactly one node.
- `LegacyFlat.UsesOf`: the `eprintln!` warning for a skipped unnamed resource (flat.rs:43) is output to stderr and is left out. The skip itself is modelled.
- `TemplateFormat`: the meaning lemmas describe templates built from chunks that hold no brace (and, for positional placeholders, no '%') and parameter names without braces, so that every replacement hits a whole placeholder. `TemplateFormat.CorrectedPositionalMeaning` also needs every index to be between 1 and the count.
- `TemplateFormat`: what a `format!` call returns is `LegacyTemplates.FormatApply`, shared by both pipelines; width, precision and other format specs are left out.

## Findings

| source | as written | input that shows it | evidently intended | confidence | as-written member | corrected member |
|---|---|---|---|---|---|---|
| generator/generation/flat/emitter.rs:102-103 | `&warning[..100]` slices the warning at byte 100 | a warning of 34 or more '€' (3 bytes each): byte 100 falls inside a character and the slice panics | cut at the last character boundary at or below 100 bytes | not executed | Emitter.NoteAsWrittenPanics | Emitter.NoteProperties |
| generator/generation/flat/emitter.rs:109 | the note escapes '"' but not '\' before it is written into a string literal | a warning naming `res\values.xml`: the literal holds `\v`, which is no Rust escape | escape the whole note as a Rust string literal | not executed | Emitter.ResValuesBreaks | Emitter.AnnotationNote |
| codegen/generator/basic.rs:207-213 | an undeclared `{x}` is written `\{x\}` into the `format!` literal | "{name} {x}" with `name` declared: `\{` is no Rust escape and the function does not compile | keep `{x}` literally, written `{{x}}` in the format string | not executed | LegacyTemplates.UnknownPlaceholderBreaks | LegacyTemplates.TemplateBodyMeaning |
| codegen/generator/basic.rs:170-177 | without arguments every backslash is removed from the escaped text | the template `"hi"`: the quotes are left bare and end the literal | write the escaped text unchanged | not executed | LegacyTemplates.QuoteBreaksNoArgs | LegacyTemplates.TemplateBodyMeaning |
| codegen/parser/mod.rs:103-129 | any start tag with a `name` attribute renames the value being read, a template's open `<param name="p">` included | `<string name="n" template="t"><param name="p" type="int"></param></string>`: the template is filed under p | a `<param>` inside a template leaves the element's name alone | not executed | LegacyParser.ParamRenamesTemplate | LegacyParser.TemplateWithParamElement |
| codegen/generator/advanced.rs:110-128 | the length check and the slices `&hex[0..2]` count bytes | "#a€bc": six bytes, so the six-digit branch slices inside the euro sign and the build panics | reject text that is not six or eight ASCII hex digits | not executed | LegacyAdvanced.EuroColorPanics | LegacyAdvanced.ParseHexArgbAgrees |
| codegen/generator/flat.rs:46-47 | a resource is re-exported as `crate::{type}::{UPPER(whole name)}` | "auth/title": `crate::string::AUTH_TITLE` is not declared; the string module declares `crate::string::auth::TITLE` | import from the nested path that a reference to the resource resolves to | not executed | LegacyFlat.NamespacedExportBreaks | LegacyFlat.CorrectedStringPath |
| codegen/generator/flat.rs:46-47 | a template is re-exported under its upper-case constant name | the template "greeting": `crate::string::GREETING` is not declared; the module declares `pub fn greeting` | import the lower-case function | not executed | LegacyFlat.TemplateExportBreaks | LegacyFlat.TemplateAsWrittenName |
| generator/ir/types/template.rs:138-151 | the `{name}` placeholders become `{}` and the arguments are the parameters in declaration order | "{b} {a}" with parameters a then b: the function returns "a b"; a placeholder used twice leaves a `{}` without argument and the call does not compile | each `{}` gets the argument its placeholder names | not executed | TemplateFormat.NamedSwapExample | TemplateFormat.CorrectedNamedMeaning |
| generator/ir/types/template.rs:173-190 | the `%k$s` placeholders become `{}` and the arguments are `arg1` to `argN` in index order | "%2$s %1$s": the function returns arg1 then arg2; "%1$s %1$s" gets one argument for two `{}` and does not compile | each `{}` gets the argument its index names, in order of appearance | not executed | TemplateFormat.PositionalSwapExample | TemplateFormat.CorrectedPositionalMeaning |
