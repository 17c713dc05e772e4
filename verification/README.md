# XAML missing-namespace detector, modelled in Dafny

XamlMissingXMLNamespaces walks a directory of `.xaml` files. For each file it reports
every namespace prefix the file uses but never declares. A prefix counts as used when
it appears in any of three places:

- an element name (`<control:MyControl/>`);
- an attribute name (`<TextBox control:MyControl.Text="Hello"/>`);
- the `TargetType` value of a matched `Style` (`<Style TargetType="control:MyControl"/>`).

This project models the core of `src/XamlMissingXMLNamespaces/Program.cs` as pure
functions over an immutable document tree, and proves properties of it. The core is:

- the three collecting passes (`RetrieveFileNodeNamespaces`,
  `RetrieveTargetTypeNamespaces`, `RetrieveAttributeNamespaces`);
- the duplicate-free accumulator those passes share;
- the declared-prefix set built by `GetNamespaceManager`;
- the difference computed in `RetrieveMissingNamespaceElements`;
- the per-file loop in `Main`, including the undeclared-prefix recovery;
- the final report in `Main`.

The XML parser, the XPath engine and the namespace manager's registration checks are
library code. Their results are inputs to the model:

- a `ParsedFile` carries the document's top-level nodes;
- it carries each namespace declaration, with whether its registration was accepted;
- it carries the nodes the `//def:Style[@TargetType]` query matched;
- a `Load` is either a parsed file or the exception loading threw.

Modules, in dependency order:

| file | module | contents |
|---|---|---|
| `text.dfy` | `Text` | the .NET string operations the detector uses: `Char.IsWhiteSpace`, `IsNullOrWhiteSpace`, ordinal `Contains`, `Split(char)`, with `Join` as the inverse of `Split` |
| `lists.dfy` | `Lists` | no-duplicates, first index, subsequence, order-preserving filter |
| `qname.dfy` | `QName` | the prefix of `Prefix ':' LocalPart` (section 4 of Namespaces in XML 1.0), taken as `Split(':')[0]` |
| `accumulator.dfy` | `Accumulator` | the "add if non-blank and new" step and its fold |
| `document.dfy` | `Document` | the node tree, post-order traversal, attribute lookup |
| `usage.dfy` | `Usage` | the three passes, each proved equal to a fold over the candidates read off the nodes |
| `scope.dfy` | `Scope` | the declared-prefix set |
| `detector.dfy` | `Detector` | found prefixes, the difference, missing prefixes |
| `driver.dfy` | `Driver` | the per-file loop, the undeclared-prefix recovery, the report |
| `scenarios.dfy` | `Scenarios` | example documents (a control element, a `TargetType` style, an attached-property attribute), each stated for every prefix, local name and URI |

Behaviour of the code that the model keeps:

- Only one kind of exception is caught around loading a file: an `XmlException` whose
  message contains "is an undeclared prefix". Any other exception thrown while loading
  escapes `Main`, and the run ends without a report. `Driver.Run` returns `Crashed` in
  this case.
- The recovered prefix is the text between the first `'` of the message and the next
  `'` (or the end of the message). This is `Split('\'')[1]`, whatever else the message
  says.
- Every file path goes into a dictionary with `Add`. A path seen twice throws, and
  nothing catches it, so the run ends. This gives the `RepeatedPath` abort cause.
- The summary count logged as "Found N missing namespaces" counts files with at least
  one finding, not prefixes. This is `Report.filesWithFindings`.
- The loop adds each path to the dictionary (line 39) before it loads and examines the
  file (lines 41-45). Examining is pure, so the model examines all files first
  (`Driver.Visits`) and then runs the dictionary loop (`Driver.Collect`). `Collect`
  tests for a repeated path before it looks at the file's outcome, in the source's
  order, and stops at the first repeated path or escaping exception.
- The declaration query `//namespace::*[not(. = ../../namespace::*)]` (line 125) keeps
  a namespace node only when no namespace node of the parent element has the same
  URI. It compares URIs, not prefixes. A prefix declared on an inner element, with a
  URI that an ancestor already binds under another prefix, is left out of the declared
  set and reported missing (`Scenarios.InheritedUriElementPrefix`,
  `Scenarios.InheritedUriAttributePrefix`).
- The declared set is the manager's keys in scope. These always include the built-in
  `xml` binding as well as `def`, so `xml` is never reported missing.
- The `xmlns` test is a substring test on the whole attribute name. An attribute whose
  name contains `xmlns` anywhere is skipped, even one like `myxmlns:Foo.Bar`.
- A `TargetType` value is read as text. The parser never checks its prefix, so a
  `Style` whose `TargetType` prefix has no declaration loads and that prefix is
  reported missing (`Scenarios.UndeclaredTargetTypePrefix`).
- A `TargetType` markup extension is split at its first `:` like any other value.
  `{x:Type local:Foo}` records the prefix `{x` (`Usage.MarkupExtensionTargetType`).

## Model

| member | source | states |
|---|---|---|
| Text.Split | src/XamlMissingXMLNamespaces/Program.cs:162 | `Split(char)` always yields at least one piece, and no piece contains the separator |
| Text.JoinSplit | src/XamlMissingXMLNamespaces/Program.cs:162 | splitting loses nothing: joining the pieces with the separator gives the string back |
| Text.SplitJoin | src/XamlMissingXMLNamespaces/Program.cs:162 | separator-free pieces come back unchanged from a join followed by a split |
| Text.SplitAtFirstSeparator | src/XamlMissingXMLNamespaces/Program.cs:162 | the first piece is exactly the text before the first separator; the rest splits independently |
| Text.SplitHasSecondPiece | src/XamlMissingXMLNamespaces/Program.cs:49-50 | `Split` yields two or more pieces exactly when the separator occurs in the string |
| Text.ContainsIffOccurs | src/XamlMissingXMLNamespaces/Program.cs:186 | the ordinal `Contains` of the `xmlns` test (and of the phrase test at line 47) holds exactly when the text occurs at some offset |
| QName.PrefixOf | src/XamlMissingXMLNamespaces/Program.cs:162 | the extracted prefix holds no `:` and starts the name; when the name is qualified, it is followed by `:`; otherwise it is the whole name |
| QName.QualifiedPrefixRoundTrip | src/XamlMissingXMLNamespaces/Program.cs:193 | for a colon-free prefix, extraction inverts writing `prefix:local`, even when the local part holds more colons |
| QName.QualifiedDecomposes | src/XamlMissingXMLNamespaces/Program.cs:244 | every qualified string is its extracted prefix, a `:`, and the remainder |
| Accumulator.Offer | src/XamlMissingXMLNamespaces/Program.cs:163-166 | the list only grows, by at most one; a prefix is added exactly when it is non-blank and new; no duplicates are introduced |
| Accumulator.OfferIdempotent | src/XamlMissingXMLNamespaces/Program.cs:163 | offering the same prefix twice equals offering it once, and offering a present prefix changes nothing |
| Accumulator.OfferAll | src/XamlMissingXMLNamespaces/Program.cs:194-198 | the fold keeps the starting list as a prefix; its members are the start plus the non-blank candidates; no duplicates are introduced |
| Accumulator.OfferAllAppend | src/XamlMissingXMLNamespaces/Program.cs:104-113 | offering two candidate lists in turn equals offering their concatenation, so passes that share one list compose |
| Accumulator.OfferAllAbsorbed | src/XamlMissingXMLNamespaces/Program.cs:245 | candidates that are all blank or already present leave the list unchanged |
| Accumulator.OfferAllIdempotent | src/XamlMissingXMLNamespaces/Program.cs:245-248 | offering the same candidates a second time adds nothing |
| Accumulator.OfferAllKeepsFirstSeenOrder | src/XamlMissingXMLNamespaces/Program.cs:163-166 | appended prefixes come in the order of their first occurrence among the candidates |
| Accumulator.FirstSeenOrder | src/XamlMissingXMLNamespaces/Program.cs:104-113 | started empty, the list is ordered by each prefix's first occurrence among the candidates |
| Document.PostOrder | src/XamlMissingXMLNamespaces/Program.cs:150-153 | the walk visits every top-level node |
| Document.PostOrderOfNode | src/XamlMissingXMLNamespaces/Program.cs:150-153 | a node is visited right after its own subtree |
| Document.PostOrderAppend | src/XamlMissingXMLNamespaces/Program.cs:150 | walking two sibling lists in turn equals walking their concatenation |
| Document.PostOrderIsClosed | src/XamlMissingXMLNamespaces/Program.cs:153 | the walk reaches every child of every node it visits |
| Document.Lookup | src/XamlMissingXMLNamespaces/Program.cs:237 | the attribute indexer gives the value of the first attribute with that name, and nothing when there is none |
| Usage.AttributeListCandidates | src/XamlMissingXMLNamespaces/Program.cs:184-197 | an attribute list offers exactly the prefixes of qualified names that do not contain `xmlns` |
| Usage.ElementPass | src/XamlMissingXMLNamespaces/Program.cs:148-173 | the element-name pass only extends the list and keeps it duplicate-free |
| Usage.OfferAttributes | src/XamlMissingXMLNamespaces/Program.cs:184-204 | the loop over one attribute collection only extends the list |
| Usage.AttributePass | src/XamlMissingXMLNamespaces/Program.cs:175-211 | the attribute-name pass only extends the list |
| Usage.OfferTargetType | src/XamlMissingXMLNamespaces/Program.cs:229-248 | one matched `Style` only extends the list |
| Usage.TargetTypePass | src/XamlMissingXMLNamespaces/Program.cs:227-254 | the `TargetType` pass only extends the list |
| Usage.ElementPassIsFold | src/XamlMissingXMLNamespaces/Program.cs:148-173 | the element pass equals offering the qualified node names' prefixes in post-order |
| Usage.OfferAttributesIsFold | src/XamlMissingXMLNamespaces/Program.cs:184-204 | the attribute loop equals offering the list's usage-attribute prefixes in order |
| Usage.AttributePassIsFold | src/XamlMissingXMLNamespaces/Program.cs:175-211 | the attribute pass equals offering each node's attribute prefixes in post-order |
| Usage.TargetTypePassIsFold | src/XamlMissingXMLNamespaces/Program.cs:227-254 | the `TargetType` pass equals offering the qualified `TargetType` values' prefixes in match order |
| Usage.ElementPassPostOrder | src/XamlMissingXMLNamespaces/Program.cs:150-158 | a node's subtree is recorded first, and the node adds at most its own prefix after it; an unqualified name adds nothing, but the children are still walked |
| Usage.ElementPassRecords | src/XamlMissingXMLNamespaces/Program.cs:155-165 | the element pass records exactly the non-blank prefixes of qualified names in the tree |
| Usage.AttributePassWithoutAttributes | src/XamlMissingXMLNamespaces/Program.cs:180-184 | a node with no attribute collection adds nothing, but its subtree is still walked |
| Usage.AttributePassRecords | src/XamlMissingXMLNamespaces/Program.cs:180-209 | the attribute pass records exactly the non-blank prefixes of qualified attribute names without `xmlns` |
| Usage.DeclarationIsNotUsage | src/XamlMissingXMLNamespaces/Program.cs:186 | `xmlns` and `xmlns:local` are never counted as usages |
| Usage.AttributePassNeverRecordsXmlns | src/XamlMissingXMLNamespaces/Program.cs:186-197 | the attribute pass never records `xmlns` as a used prefix |
| Usage.TargetTypePassRecords | src/XamlMissingXMLNamespaces/Program.cs:231-247 | the `TargetType` pass records exactly the non-blank prefixes of qualified `TargetType` values of matches that have one |
| Usage.SkippedMatchIsInert | src/XamlMissingXMLNamespaces/Program.cs:229-253 | a match skipped for having no attributes, no `TargetType`, or an unqualified value does not affect the other matches |
| Usage.MarkupExtensionTargetType | src/XamlMissingXMLNamespaces/Program.cs:239-247 | a markup-extension value such as `{x:Type local:Foo}` records the text before its first `:`, brace included (`{x`) |
| Scope.Register | src/XamlMissingXMLNamespaces/Program.cs:135-142 | one `AddNamespace` as seen through `GetNamespacesInScope`: a rejected registration changes nothing; an accepted one changes only its own prefix; a non-empty prefix comes into scope; the empty prefix is in scope afterwards exactly when its URI is non-empty |
| Scope.RegisterAll | src/XamlMissingXMLNamespaces/Program.cs:133-143 | registration keeps every non-empty seed key; every non-empty key is a seed key or the prefix of an accepted declaration |
| Scope.DeclaredPrefixes | src/XamlMissingXMLNamespaces/Program.cs:95-96 | the declared set always holds `def` and the built-in `xml` |
| Scope.AcceptedIsRegistered | src/XamlMissingXMLNamespaces/Program.cs:137 | every accepted declaration with a non-empty prefix ends up declared, whatever follows it |
| Scope.DeclaredPrefixesMembers | src/XamlMissingXMLNamespaces/Program.cs:129-143 | a non-empty prefix is declared exactly when it is `xml`, `def` or the prefix of an accepted declaration |
| Scope.RegisterAllAppend | src/XamlMissingXMLNamespaces/Program.cs:133-143 | registering two declaration lists in turn equals registering their concatenation |
| Scope.RejectedRegistrationIsSkipped | src/XamlMissingXMLNamespaces/Program.cs:135-142 | a declaration whose registration fails is skipped without affecting the others |
| Detector.CandidatesHaveNoColon | src/XamlMissingXMLNamespaces/Program.cs:162 | no candidate offered by any pass contains `:` |
| Detector.FoundIsFold | src/XamlMissingXMLNamespaces/Program.cs:104-113 | running the element, then `TargetType`, then attribute pass on one list equals one fold over all their candidates in that order |
| Detector.FoundPrefixes | src/XamlMissingXMLNamespaces/Program.cs:104-113 | the found list is duplicate-free; its members are exactly the non-blank candidates; none contains `:` or is blank; each pass's result is a prefix of the next |
| Detector.FoundPrefixesFirstSeenOrder | src/XamlMissingXMLNamespaces/Program.cs:104-113 | found prefixes are ordered by their first occurrence among the candidates |
| Detector.CollectingAgainAddsNothing | src/XamlMissingXMLNamespaces/Program.cs:104-113 | running the three passes again on the found list leaves it unchanged |
| Detector.Difference | src/XamlMissingXMLNamespaces/Program.cs:115 | the filter keeps exactly the undeclared members, in order, without duplicates; it is empty exactly when every member is declared |
| Detector.MissingPrefixes | src/XamlMissingXMLNamespaces/Program.cs:95-115 | missing prefixes are a duplicate-free subsequence of the found list, exactly those not declared; `def` and `xml` are never missing |
| Detector.MissingIffUsedAndUndeclared | src/XamlMissingXMLNamespaces/Program.cs:104-115 | a prefix is missing exactly when some pass offers it, it is non-blank, and it is not declared |
| Detector.AllDeclaredMeansNothingMissing | src/XamlMissingXMLNamespaces/Program.cs:115 | when every used prefix is declared, nothing is missing |
| Detector.NoUsageMeansNothingFound | src/XamlMissingXMLNamespaces/Program.cs:155-158 | a document with no qualified name or value finds nothing and misses nothing |
| Driver.RecoveredPrefix | src/XamlMissingXMLNamespaces/Program.cs:49-53 | at most one prefix is recovered; one is recovered exactly when the message holds a `'`; it holds no `'` |
| Driver.RecoveredQuotedSegment | src/XamlMissingXMLNamespaces/Program.cs:49-52 | the recovered prefix is the text between the first `'` and the next one |
| Driver.RecoveredUnterminatedSegment | src/XamlMissingXMLNamespaces/Program.cs:49-52 | with no second `'`, the recovered prefix runs to the end of the message |
| Driver.ExamineFile | src/XamlMissingXMLNamespaces/Program.cs:41-54 | a failure escapes exactly when it is not an `XmlException` containing "is an undeclared prefix"; a handled failure adds one finding if the message holds a `'` and none otherwise |
| Driver.QuotedPrefixIsRecovered | src/XamlMissingXMLNamespaces/Program.cs:47-53 | a message that starts with `'p'` and later mentions the phrase yields exactly `p` |
| Driver.UndeclaredPrefixErrorYieldsPrefix | src/XamlMissingXMLNamespaces/Program.cs:47-53 | the parser's "'p' is an undeclared prefix." error yields exactly the finding `p` |
| Driver.Collect | src/XamlMissingXMLNamespaces/Program.cs:36-55 | a completed loop extends the dictionary it started from by one entry per file; an aborted loop stops at the path of one of its files |
| Driver.CollectEntry | src/XamlMissingXMLNamespaces/Program.cs:38-52 | in a completed loop, each file's entry holds its path and its missing prefixes, and no exception escaped for it |
| Driver.CollectCompletes | src/XamlMissingXMLNamespaces/Program.cs:36-55 | the loop completes exactly when no path repeats and no exception escapes for any file |
| Driver.CollectedEntries | src/XamlMissingXMLNamespaces/Program.cs:34-55 | a loop completed from an empty dictionary has one entry per file, with the file paths as keys in order |
| Driver.Scan | src/XamlMissingXMLNamespaces/Program.cs:34-55 | a scan from an empty dictionary that completes has one entry per file; one that aborts names the path of one of the files |
| Driver.ScanCompletes | src/XamlMissingXMLNamespaces/Program.cs:36-55 | a scan of the files completes exactly when no path repeats and no file's exception escapes |
| Driver.CompletedScanEntries | src/XamlMissingXMLNamespaces/Program.cs:34-55 | a completed scan's dictionary keys are the file paths, in order, and each file's entry holds the missing prefixes its examination gave |
| Driver.PairsOf | src/XamlMissingXMLNamespaces/Program.cs:63-66 | one entry gives one pair per missing prefix, each tagged with the entry's path, and distinct prefixes give distinct pairs |
| Driver.Findings | src/XamlMissingXMLNamespaces/Program.cs:61-67 | a (file, prefix) pair is a finding exactly when some entry for that file lists the prefix |
| Driver.ReportOf | src/XamlMissingXMLNamespaces/Program.cs:57-66 | the error lines are the findings of all entries, one "Namespace missing from {file} - {prefix}" line each, in dictionary order; the count is exactly the number of entries with at least one missing prefix, so it is at most the number of entries and of lines, and zero exactly when there is no finding |
| Lists.FilterCount | src/XamlMissingXMLNamespaces/Program.cs:57 | the `Where` filter keeps one element per position whose element passes the test |
| Driver.FindingsOfNonEmptyEntries | src/XamlMissingXMLNamespaces/Program.cs:57-66 | entries that each miss a prefix give at least one finding each, and none exactly when there are no such entries |
| Driver.ReportedFindingsAreAllFindings | src/XamlMissingXMLNamespaces/Program.cs:57 | dropping the entries without findings loses no finding and changes no order |
| Driver.FindingsAreDistinct | src/XamlMissingXMLNamespaces/Program.cs:39 | distinct paths with duplicate-free lists give distinct findings |
| Driver.CompletedEntriesAreDistinct | src/XamlMissingXMLNamespaces/Program.cs:39 | a completed scan's dictionary has distinct paths, and each path's list has no duplicates |
| Driver.FindingsOfScan | src/XamlMissingXMLNamespaces/Program.cs:36-66 | the findings of a completed scan are exactly the missing prefixes of its files, tagged with their paths |
| Driver.Run | src/XamlMissingXMLNamespaces/Program.cs:34-66 | a crash names the path of one of the files; a report counts at most one file per input file |
| Driver.RunReports | src/XamlMissingXMLNamespaces/Program.cs:36-66 | the run produces its report exactly when no path repeats and no file's exception escapes |
| Driver.ReportHasOneLinePerFinding | src/XamlMissingXMLNamespaces/Program.cs:57-66 | a completed run logs exactly one error line per distinct (file, missing prefix) pair |
| Scenarios.SoleUndeclaredPrefix | src/XamlMissingXMLNamespaces/Program.cs:115 | a used prefix that is neither built in nor offered by an accepted declaration is the single missing prefix when every other used prefix is declared |
| Scenarios.SoleDeclaredPrefix | src/XamlMissingXMLNamespaces/Program.cs:115 | a prefix that is the only one used and is offered by some accepted declaration is not missing |
| Scenarios.InheritedUriElementPrefix | src/XamlMissingXMLNamespaces/Program.cs:106-107 | `<Grid xmlns:a="u"><p:Local xmlns:p="u"/></Grid>`, whose declaration query yields `a` and the built-in `xml` node but not `p`, has exactly one missing prefix, `p` |
| Scenarios.InheritedUriAttributePrefix | src/XamlMissingXMLNamespaces/Program.cs:112-113 | `<Grid xmlns:a="u"><TextBox p:Member="..." xmlns:p="u"/></Grid>`, whose declaration query yields `a` and the built-in `xml` node but not `p`, has exactly one missing prefix, `p` |
| Scenarios.DeclaredAttributePrefix | src/XamlMissingXMLNamespaces/Program.cs:112-113 | the same attribute under a parent declaring `xmlns:p`, whose query yields `p` and the built-in `xml` node, has nothing missing |
| Scenarios.StyleAttributesOfferNothing | src/XamlMissingXMLNamespaces/Program.cs:186 | none of `TargetType`, the default `xmlns` declaration and `xmlns:p` counts as a used attribute-name prefix |
| Scenarios.UndeclaredTargetTypePrefix | src/XamlMissingXMLNamespaces/Program.cs:109-110 | `<Style TargetType="p:Type" xmlns="...">`, which loads because the parser does not check prefixes inside attribute values, has exactly one missing prefix, `p`; the default declaration is yielded by the query but its registration is rejected |
| Scenarios.DeclaredTargetTypePrefix | src/XamlMissingXMLNamespaces/Program.cs:109-110 | `<Style TargetType="p:Type" xmlns="..." xmlns:p="...">` has nothing missing |

## Left out

- Loading and parsing (`XmlDocument.Load`, lines 257-265): library code. Its result, a parsed file or the exception thrown, is an input.
- The declaration query and the namespace manager (lines 125-127): library code. The query's result, and whether each registration was accepted, are inputs. The manager's own rules for rejecting a declaration are not modelled.
- The `Style[@TargetType]` query (lines 15, 221): library code. The matched nodes are an input.
- Directory traversal (`GetDirectoryXamlFiles`, `GetResourcesFromDirectory`, lines 75-86 and 267-292): filesystem I/O. The file list is an input.
- `Logging/EventLog.cs` and `Storage/FileStorageHelper.cs`: console and file output, clocks and paths. They are not part of this model.
- The Info-level log lines and per-node error logging: output only. The report keeps the count and the error lines.
- `Console.ReadLine` and the default command-line path (lines 23-28 and 72): user interaction.
- The `attribute.Name == null` test (line 186): an attribute name is never null, so that branch is not modelled.
- The `nodes == null` returns (lines 99-102 and 222-225): child lists and query results are never null in the model.
- The catch-all handlers in the passes and in `RetrieveMissingNamespaceElements` (lines 117-120, 168-171, 200-203, 206-209, 250-253) are modelled by their effect, not as exceptions. Text, comment and declaration nodes have a null `node.Attributes`, and the `foreach` over it (line 184) throws; the handler at lines 206-209 swallows it, so such a node is `attributes == None` and adds nothing while its children are still walked. A matched `Style` without a `TargetType` attribute makes the indexer (line 237) return null and `.Value` throw; the handler at lines 250-253 swallows it, so the match is skipped. Nothing else in the modelled passes throws.
- `Detector.ParsedFile` is not limited to trees the parser accepts. The parser rejects an element or attribute name whose prefix has no declaration in scope, and such a file takes the catch path instead (lines 47-53, `Driver.UndeclaredPrefixErrorYieldsPrefix`). The parser never looks inside attribute values, so a `TargetType` value with an undeclared prefix loads and reaches the difference (`Scenarios.UndeclaredTargetTypePrefix`). A file the parser accepts also reaches the difference with an undeclared element or attribute prefix when the declaration query leaves the declaration out or its registration is rejected, as in the `Scenarios.InheritedUri` lemmas.
- Dictionary enumeration order (lines 57 and 61): the dictionary is a sequence in insertion order. .NET does not document the enumeration order of `Dictionary<TKey, TValue>`; with only `Add` and no removal it is insertion order in practice, and the model assumes that order for the report.
