# Gazelle rule merger and package selection, in Dafny

Gazelle generates Bazel BUILD files for Go code. This project models two of its parts
and proves properties of the model.

- **The rule merger** (`go/tools/gazelle/merger/merger.go`). It reconciles freshly
  generated rules with an existing BUILD file, honouring `# keep` and
  `# gazelle:ignore` comments. It merges `srcs`/`deps`/`library` lists and `select`
  dictionaries, unions `load` statements, and replaces matching rules in place.
- **The package selection of the directory walker**
  (`go/tools/gazelle/packages/walk.go`). It decides which directories are visited and
  how a directory's entries are split. It then groups the `.go` files into packages,
  picks the package to generate rules for, and records the remaining files in it.

Files:

- `wrappers.dfy`: `Option` and `Result`, for Go's nil pointers and `(value, error)` returns.
- `strings.dfy`: prefix and suffix tests; Go's byte-wise string order and `sort.Strings`, proved to be a sorted permutation; and `path.Base`.
- `bzl.dfy`: the BUILD syntax tree, with the comments of every node, and the accessors of the BUILD library that the merger calls (`AttrKeys`, `AttrDefn`, `Attr`, `SetAttr`, `Kind`, `Name`, `File.Rules`).
- `merger.dfy`: the merger. Each imperative Go function becomes one or more methods with loops. Each method is proved equal to a specification function, and the promised behaviour is proved about that function as lemmas.
- `packages.dfy`: the walker. Directory listings and the classification of each file are inputs. `findPackage` and `selectPackage` are methods proved equal to specification functions. `Walk` is a function over a directory tree.

Where the design text and the code differ, the model follows the code:

- The design promises that a string attribute marked keep is never replaced by a generated value. In `mergeRule` this holds only when the generated value is a string (merger.go:154-159). Against a generated list, or a generated rule without the attribute, `mergeExpr` cannot split the old string (merger.go:165-168, 236), and the generated value replaces it or the attribute is deleted (merger.go:117-135). `KeptValueSurvives`, `KeptStringReplaced` and `KeptStringLostExample` state both sides.
- Merging a list is idempotent only for a non-empty generated list: `MergedListEmptyNotIdempotent` shows an empty one turning into nil on the second merge.

## Model

| member | source | states |
|---|---|---|
| Strings.Sort | go/tools/gazelle/merger/merger.go:329 | `sort.Strings`: the result is sorted in Go's string order and is a permutation of the input |
| Strings.SortListing | go/tools/gazelle/merger/merger.go:379-383 | sorting any listing of a set's members gives the set in strictly ascending order, whatever the listing order |
| Strings.Base | go/tools/gazelle/packages/walk.go:210-212 | `path.Base`: "." for the empty path, "/" for an all-slash path, otherwise the last element of the path with trailing slashes removed: non-empty, slash-free, a suffix of the trimmed path, and either all of it or preceded there by '/' |
| Strings.BaseOfTrimmed | go/tools/gazelle/packages/walk.go:210-212 | for a path that is not all slashes, Base is the last segment of the path with its trailing slashes removed |
| Strings.LastSegmentIsLast | go/tools/gazelle/packages/walk.go:210-212 | the last element is determined: any slash-free suffix of a path that is all of it or preceded there by '/' is its last segment, which Base returns for a path that is not all slashes (`BaseOfTrimmed`), so Base's clauses pin its result |
| Bzl.AttrKeys | go/tools/gazelle/merger/merger.go:109 | the keys listed are exactly the names of the `name = value` arguments |
| Bzl.AttrDefn | go/tools/gazelle/merger/merger.go:110 | the definition found is an argument defining that key; none is found exactly when no argument defines it |
| Bzl.SetAttr | go/tools/gazelle/merger/merger.go:133 | a key not yet defined is appended as a new `k = v` argument at the end |
| Bzl.SetAttrDefn | go/tools/gazelle/merger/merger.go:131-135 | after setting `k`, `k` has the new value and every other attribute keeps its definition |
| Bzl.Rules | go/tools/gazelle/merger/merger.go:419 | the rules of a kind are exactly the call statements of that kind; kind "" selects every call |
| Merger.ShouldIgnore | go/tools/gazelle/merger/merger.go:395-409 | a file is ignored exactly when some top-level statement has a comment line before or after it starting with `# gazelle:ignore` |
| Merger.CheckIgnore | go/tools/gazelle/merger/merger.go:395-409 | the nested comment loops compute exactly ShouldIgnore |
| Merger.KeptElemsMembers | go/tools/gazelle/merger/merger.go:252-259 | the elements kept from the old list are exactly its keep-marked elements |
| Merger.NotKeptMembers | go/tools/gazelle/merger/merger.go:261-266 | the generated elements retained are exactly those whose string value is not a kept value |
| Merger.MergeList | go/tools/gazelle/merger/merger.go:239-271 | the two loops compute the merged list the specification function defines |
| Merger.MergedListContents | go/tools/gazelle/merger/merger.go:239-271 | with a nil old list the result is the generated list. Otherwise it is nil exactly when nothing is kept and nothing is generated. It starts with the keep-marked old elements in their order. Every keep-marked old element is present. After them come exactly the generated elements whose value is not a kept value. |
| Merger.MergedListIdempotent | go/tools/gazelle/merger/merger.go:239-271 | merging the same generated list again into the merged result changes nothing, when the generated list is non-empty, has no comments, is not forced multi-line, and its elements carry no keep marker (the assumption stated at merger.go:108) |
| Merger.MergedListEmptyNotIdempotent | go/tools/gazelle/merger/merger.go:239-271 | the non-empty condition is needed: an empty generated list against a nil old list gives the empty list (merger.go:240-241), and merging it again into that result gives nil (merger.go:268-269) |
| Merger.MergedListExample | go/tools/gazelle/merger/merger.go:247-266 | a kept old element comes first, and a generated duplicate of an old unkept element is not lost |
| Merger.ExprListAndDict | go/tools/gazelle/merger/merger.go:201-237 | accepts exactly nil, a list, `select` of one dict, and `list + select(dict)`, returning their parts; every other shape is an error |
| Merger.CombineRoundTrip | go/tools/gazelle/merger/merger.go:176-195 | the expression rebuilt from a merged list and dict is split back by exprListAndDict into the same parts, the list marked multi-line when both are present |
| Merger.DictEntryKeyValue | go/tools/gazelle/merger/merger.go:352-366 | succeeds exactly for a key-value entry with a string key and a list value, returning them; a non key-value entry gives that specific error |
| Merger.CollectExisting | go/tools/gazelle/merger/merger.go:285-296 | the entries collected from the old dict have distinct keys |
| Merger.AddGenerated | go/tools/gazelle/merger/merger.go:298-310 | adding the generated cases keeps the keys distinct |
| Merger.CollectEntries | go/tools/gazelle/merger/merger.go:282-296 | the loop over the old dict computes CollectExisting, and the index map points at each case's entry |
| Merger.AddGeneratedEntries | go/tools/gazelle/merger/merger.go:298-310 | the loop over the generated dict computes AddGenerated and keeps the index map exact |
| Merger.MergeValues | go/tools/gazelle/merger/merger.go:312-325 | each entry gets its merged list (the default case an empty list instead of nil); the keys are the live non-default cases; the default flag is set exactly when the default case exists |
| Merger.MergeEntry | go/tools/gazelle/merger/merger.go:315-322 | the merged list of one case is the list merge of its generated and old lists, except that the default case is an empty list rather than nil |
| Merger.MergeValuesStep | go/tools/gazelle/merger/merger.go:315-324 | one iteration gives the entry its merged list, extends the live keys by its key exactly when it is a non-default case with a non-nil merge, and records whether the default case has been seen |
| Merger.BuildCases | go/tools/gazelle/merger/merger.go:335-342 | the output entries are `"key": merged list` for the ordered keys |
| Merger.AssembleDict | go/tools/gazelle/merger/merger.go:312-344 | after the entries are built, the merged values, the nil test, the sorted keys with the default case last and the output entries together compute what Assemble defines |
| Merger.AssembledKeysIff | go/tools/gazelle/merger/merger.go:326-333 | a case is among the emitted keys exactly when its entry exists and its merged list is not nil |
| Merger.AssembleCases | go/tools/gazelle/merger/merger.go:326-344 | each case of the assembled dict holds its entry's merged list, and a case without a surviving entry is absent |
| Merger.MergeDict | go/tools/gazelle/merger/merger.go:274-345 | the method computes the merged dict the specification function defines |
| Merger.CollectExistingCases | go/tools/gazelle/merger/merger.go:285-296 | a case has an entry exactly when the old dict names it, holding the old list and no generated list |
| Merger.AddGeneratedCases | go/tools/gazelle/merger/merger.go:298-310 | a case has an entry when either side names it; the generated list overrides an earlier one and the old list is untouched |
| Merger.LiveKeysIff | go/tools/gazelle/merger/merger.go:312-325 | a key is listed exactly when it is not the default case and its merged list is not nil |
| Merger.MergedDictCases | go/tools/gazelle/merger/merger.go:274-345 | every case of the merged dict holds the merged list of that case's generated and old lists, and no other case appears |
| Merger.MergedDictNil | go/tools/gazelle/merger/merger.go:326-328 | the merged dict is nil exactly when no non-default case survives and the default case is absent or empty |
| Merger.MergedDictShape | go/tools/gazelle/merger/merger.go:329-344 | the merged dict is forced multi-line. Every entry is `string: list`. Non-default keys are strictly ascending. The default case comes last. |
| Merger.MergedDictOk | go/tools/gazelle/merger/merger.go:274-310 | mergeDict succeeds exactly when the old dict is nil, or every entry on both sides is well formed and no old case is named twice |
| Merger.CollectExistingOk | go/tools/gazelle/merger/merger.go:285-296 | collecting the old dict succeeds exactly when all its entries are well formed and no case repeats |
| Merger.AddGeneratedOk | go/tools/gazelle/merger/merger.go:298-302 | adding the generated dict succeeds exactly when all its entries are well formed |
| Merger.MergeExpr | go/tools/gazelle/merger/merger.go:153-196 | the method, calling the list and dict merges, computes the merged expression the specification function defines |
| Merger.MergedExprParts | go/tools/gazelle/merger/merger.go:161-195 | for a non-string generated value, a successful merge is list-only, select-only or `list + select`: its parts are the merged list and the merged dict |
| Merger.Positional | go/tools/gazelle/merger/merger.go:100-105 | the copied arguments are a prefix with no `=` assignment, stopping at the first assignment |
| Merger.MergedAttr | go/tools/gazelle/merger/merger.go:109-128 | a non-mergeable attribute is copied unchanged; a merged one keeps the old definition's key and operator |
| Merger.CopyPositional | go/tools/gazelle/merger/merger.go:100-105 | the loop copies exactly the positional prefix |
| Merger.MergeAttrs | go/tools/gazelle/merger/merger.go:109-128 | the loop over the old attribute keys builds exactly the merged attributes |
| Merger.MergeOneAttr | go/tools/gazelle/merger/merger.go:110-127 | one old attribute: a non-mergeable one is copied, a mergeable one takes the merged value (the generated value when the merge fails) under the old key and operator, or is dropped when that is nil |
| Merger.AddGeneratedAttrs | go/tools/gazelle/merger/merger.go:131-135 | the loop over the generated keys adds exactly the missing generated attributes |
| Merger.MergeRule | go/tools/gazelle/merger/merger.go:89-138 | the method computes the merged rule the specification function defines |
| Merger.MergedAttrsDefn | go/tools/gazelle/merger/merger.go:109-128 | after the old-attribute loop, each old key has its merged definition and no other key is defined |
| Merger.AddGenAttrsDefn | go/tools/gazelle/merger/merger.go:131-135 | adding generated attributes keeps everything before and defines each missing generated key as `k = generated value` |
| Merger.MergedRuleAttr | go/tools/gazelle/merger/merger.go:89-138 | the merged rule keeps the old callee and comments and starts with the old positional arguments. A non-mergeable old attribute is kept verbatim. A mergeable one takes the merged value with the old comments, or the generated value on error. When that value is nil the old definition is dropped; if the generated rule defines the key, the third loop then adds `k = generated value` at the end, without the old comments. An attribute only the generated rule has is added the same way. |
| Merger.MergedRuleIdentity | go/tools/gazelle/merger/merger.go:89-138 | the merged rule has the old rule's kind, and the old rule's name when it defines one (the generated name otherwise) |
| Merger.KeptValueSurvives | go/tools/gazelle/merger/merger.go:154-159 | a keep-marked old value of an attribute keeps its whole definition, comments included, when the generated value is a string |
| Merger.KeptStringReplaced | go/tools/gazelle/merger/merger.go:117-135 | an old string value, keep-marked or not, of a mergeable attribute is replaced by the generated value when that is not a string, and the attribute is deleted when the generated rule lacks it |
| Merger.KeptStringLostExample | go/tools/gazelle/merger/merger.go:117-135 | `library = "x"  # keep` with no generated `library`: the merged rule has no `library` |
| Merger.GenSymbols | go/tools/gazelle/merger/merger.go:369-372 | every generated symbol is stored under its own string value |
| Merger.AddUsedSymbols | go/tools/gazelle/merger/merger.go:373-378 | adding old symbols keeps every symbol under its own string value |
| Merger.CollectGenSymbols | go/tools/gazelle/merger/merger.go:369-372 | the loop over the generated symbols computes GenSymbols |
| Merger.KeepUsedSymbols | go/tools/gazelle/merger/merger.go:373-378 | the loop over the old symbols computes AddUsedSymbols |
| Merger.SortedKeys | go/tools/gazelle/merger/merger.go:379-383 | the collected and sorted keys are the map's keys in strictly ascending order |
| Merger.BuildSymbolArgs | go/tools/gazelle/merger/merger.go:385-389 | the loop emits the stored symbol of each key, in key order |
| Merger.MergeLoad | go/tools/gazelle/merger/merger.go:368-391 | the method computes the merged load the specification function defines |
| Merger.GenSymbolsLast | go/tools/gazelle/merger/merger.go:369-372 | the symbol stored for a value is the last generated symbol with that value |
| Merger.AddUsedFirst | go/tools/gazelle/merger/merger.go:373-378 | an old symbol is added only when no generated one has its value and a rule of that kind is used in the file, and the first such old symbol wins |
| Merger.LoadValsKept | go/tools/gazelle/merger/merger.go:369-378 | the symbol kept for each value is the last generated one, else the first used old one |
| Merger.MergedLoadSymbols | go/tools/gazelle/merger/merger.go:368-391 | the merged load keeps the old callee, comments and load path. Its symbols are strictly ascending with no duplicates. It holds exactly the kept symbols: the generated ones plus the old ones whose rule is used in the file. |
| Merger.FirstMatch | go/tools/gazelle/merger/merger.go:426-466 | the index found is of the first statement matched by (kind, name), or by load path for `load`; none when no statement matches |
| Merger.Match | go/tools/gazelle/merger/merger.go:426-446 | the loop returns exactly FirstMatch, and nothing for a load with no arguments |
| Merger.MergeWithExisting | go/tools/gazelle/merger/merger.go:57-84 | the loop that replaces matches in place and appends the rest computes the merged file the specification function defines |
| Merger.MergeGenerated | go/tools/gazelle/merger/merger.go:64-80 | one generated rule: the statement it matches is replaced in place by the merged load or rule, and an unmatched rule is queued to be appended, exactly as MergeStep defines |
| Merger.MergedKeepsKey | go/tools/gazelle/merger/merger.go:74-80 | a merged statement keeps the kind, name and load path it was matched by |
| Merger.FirstMatchSameKeys | go/tools/gazelle/merger/merger.go:68-80 | statements that keep the keys of the originals have the same first matches, so matching against the updated file finds what matching against the original would |
| Merger.MergedStmtSameKeys | go/tools/gazelle/merger/merger.go:74-79 | merging into a matched statement gives the same result against the updated file as against the original: the load merge only asks which rule kinds are used |
| Merger.Unmatched | go/tools/gazelle/merger/merger.go:69-72 | the appended calls are generated ones, in generated order, and a generated call is among them exactly when it matches no original statement |
| Merger.MergeAllInvariant | go/tools/gazelle/merger/merger.go:61-81 | across the loop, statements keep their number, place and key. A statement that is no generated rule's first match in the original statements is unchanged. A statement that is the first match of exactly one generated rule holds that rule merged into the original. The statements queued for appending are exactly the unmatched generated rules, in generated order. |
| Merger.AddedInvariant | go/tools/gazelle/merger/merger.go:69-72 | queuing a generated rule that matches no statement keeps the loop invariant |
| Merger.ReplacedInvariant | go/tools/gazelle/merger/merger.go:74-80 | replacing the first match in place with the generated rule merged into it keeps the loop invariant |
| Merger.FinalInvariant | go/tools/gazelle/merger/merger.go:83-84 | appending the queued calls to the statements gives the file FinalStatements describes: unclaimed statements unchanged, a statement with one claimant replaced by that claimant's merge, exactly the unmatched generated rules appended in order, and every generated rule present |
| Merger.MergedFileStatements | go/tools/gazelle/merger/merger.go:57-84 | the result is nil exactly when the existing file asks to be ignored. Otherwise it keeps the path. Each existing statement keeps its place and key, and is unchanged unless it is the first match of some generated rule. When it is the first match of exactly one generated rule, it is that rule merged into it. After the existing statements come exactly the generated rules that match nothing, in generated order. Every generated rule is present, merged or appended. |
| Packages.FirstGoFile | go/tools/gazelle/packages/walk.go:203 | the name reported is of a recorded buildable .go file, and ends in ".go" whenever the package has one |
| Packages.Partition | go/tools/gazelle/packages/walk.go:104-119 | the loop computes the .go files and the other files of the listing |
| Packages.PartitionSplits | go/tools/gazelle/packages/walk.go:104-119 | subdirectories and names that are empty or start with '.' or '_' are dropped. The kept names are split by the ".go" suffix, each list in listing order. |
| Packages.GroupGoFiles | go/tools/gazelle/packages/walk.go:122-147 | the loop builds the package map and the cgo flag from the accepted .go files |
| Packages.AcceptedFiles | go/tools/gazelle/packages/walk.go:124-133 | a .go file is recorded exactly when it classifies and its package is not "documentation", with its classification and cgo off |
| Packages.AnyCgoIff | go/tools/gazelle/packages/walk.go:135 | cgo is set exactly when some accepted .go file uses cgo |
| Packages.PackageMapContents | go/tools/gazelle/packages/walk.go:137-146 | one package per accepted package name. Each is named after its key, lives in the directory read, and holds exactly that name's files in order. |
| Packages.NoDocumentationPackage | go/tools/gazelle/packages/walk.go:130-133 | no package named "documentation" is ever created |
| Packages.WithGo | go/tools/gazelle/packages/walk.go:175-180 | the packages kept are exactly those with Go files |
| Packages.PackagesWithGo | go/tools/gazelle/packages/walk.go:175-180 | the loop over the map computes exactly the packages with Go files |
| Packages.ListPackages | go/tools/gazelle/packages/walk.go:196-204 | the error lists have equal length and name every package with Go files once, each with its first .go file, in some order |
| Packages.SelectPackage | go/tools/gazelle/packages/walk.go:174-206 | success returns exactly the selected package; an error is NoGoError when no package has Go files, and otherwise a complete MultiplePackageError listing |
| Packages.SelectedIs | go/tools/gazelle/packages/walk.go:174-194 | the selected package is a package of the map with Go files: the only one, or the one named after the directory. Nothing is selected exactly when no package has Go files, or when several do and none has the expected name. |
| Packages.SelectedPackageIs | go/tools/gazelle/packages/walk.go:122-155 | the package chosen from the accepted .go files lives in the directory, is not "documentation", has Go files and holds exactly its own accepted .go files |
| Packages.DefaultPackageNameIs | go/tools/gazelle/packages/walk.go:208-218 | away from the root, the name is the directory's base name. At the root it is never empty, "." or "/": it is "unnamed" when the base of the prefix is "." or "/" (an empty or all-slash prefix among them), and otherwise the base of the prefix, its last element |
| Packages.AddOtherFiles | go/tools/gazelle/packages/walk.go:158-169 | the loop records each classified other file in the selected package, in order, with the directory's cgo flag |
| Packages.FindPackage | go/tools/gazelle/packages/walk.go:93-172 | the method computes the package the specification function defines; an unreadable directory gives none |
| Packages.FoundPackageIs | go/tools/gazelle/packages/walk.go:149-171 | a returned package lives in the directory, is not "documentation" and has Go files. It holds its .go files in listing order, then the classified other files with the directory's cgo flag. |
| Packages.WalkFound | go/tools/gazelle/packages/walk.go:46-59 | the callback receives, in visiting order, the package found in each directory entered, and no directory entered has a skipped base name |
| Packages.WalkForestFound | go/tools/gazelle/packages/walk.go:46-59 | the same for a sequence of sibling directories |
| Packages.FoundAllFrom | go/tools/gazelle/packages/walk.go:57-58 | at most one package per directory is passed, each with Go files and from one of those directories |
| Packages.WalkCalls | go/tools/gazelle/packages/walk.go:50-59 | no directory with a skipped base name (empty, starting with '.', or "testdata") is entered, nor anything below it. The callback runs at most once per entered directory, only with a package that has Go files and lives in an entered directory. |

## Left out

- `go/tools/builders/link.go` is not part of this model. It parses flags, reads stamp files and runs the Go linker.
- Reading and parsing the existing BUILD file in MergeWithExisting (merger.go:47-56) is not modelled. The parsed file is an input (`None` when missing), and read or parse errors are not modelled.
- `filepath.Walk` and `ioutil.ReadDir` are not modelled. The directory tree and each directory's listing are inputs; an unreadable directory has no listing. Errors that `filepath.Walk` itself reports, which end the walk, are not modelled.
- The BUILD parser and printer are not modelled. The library accessors are modelled as functions over the syntax tree. `Kind` returns "" for a callee that is not a plain identifier (dotted callees are not distinguished).
- `goFileInfo`, `otherFileInfo`, `Package.addFile`, `HasGo`, `firstGoFile`, build-tag and platform evaluation, and go/build classification are not part of this model. A file's classification (package name, cgo use, whether the build admits it) is an input. A missing entry stands for a classification error.
- `addFile` is modelled as recording the file in the package. `HasGo` is modelled as "has a recorded `.go` file the build admits". The errors `addFile` logs are not modelled.
- Logging (`log.Print`) is not modelled. The `log.Panicf` on a generated statement that is not a call is stated as a precondition of MergeWithExisting.
- Go map iteration order is not modelled. The MultiplePackageError lists are specified as equal-length lists naming each package with Go files once, in no particular order.
- The merger's aliasing is not modelled: `mergeLoad`'s `append(old.List[:1], …)` writing into the old call's argument array, `mergedList.ForceMultiLine = true` setting the flag on the generated list object, and the `*dictEntry` pointers, which are modelled as indices into a sequence. None of these affect the returned value. The model returns fresh values and leaves the inputs unchanged.
- Positions and the printer's formatting hints other than `ForceMultiLine` are not modelled.
