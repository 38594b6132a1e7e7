# pyast, modelled in Dafny

pyast finds the Python files that may be affected by a change. Its steps are:

- It finds the package roots above the changed files.
- It scans every module under those roots for `import` statements. The
  comments are stripped first. Each statement then gives a set of candidate
  dotted "classes".
- It folds the (importer, imported) pairs into a reverse import graph.
- It walks that graph from the classes of the changed files. Every class reached is
  mapped back to a file path.

This project models that core as pure functions and short methods, each with
a contract and with lemmas that relate it to an independent statement of what
it means. The modules are:

- `GoStrings` holds the parts of Go's `strings` package that the code relies
  on: `Split`, `Trim`, `TrimSpace`, `LastIndex` and `ReplaceAll` on single
  characters.
- `Classes` models the string set of set.go.
- `Codec` models `PathToClass` and `ClassToPath`.
- `Strip` models `stripComments`. Each regular expression becomes a
  left-to-right scanner that follows Go's leftmost-first, lazy matching.
- `Extract` models what `extractImportsFromModule` does with the matches of
  its import pattern. It splits the names, resolves relative packages and
  expands each dependency into its candidates.
- `Graph` models the edge fold of `BuildTree`, `seen.AddClass`,
  `getClassDependencies`, and `GetDependees` for one tree and for a list of
  trees. The concurrent walk is a sequential worklist. Its result is proved
  equal to the set of classes reachable along reverse edges, so it does not
  depend on the schedule.
- `Roots` models `CalculatePythonRoots`.
- `Pants` models `Pants.Overrides` over the parsed form of a BUILD file.
- `Scenarios` states the expected outputs of pyast_test.go and pants_test.go
  as lemmas.

The file system enters only as function parameters:

- `isDir` stands for `file.DirExists` in `ClassToPath`.
- `hasInit` and `dirExists` stand for the two probes of the root walk.
- `abs` stands for `filepath.Abs`.
- `isAbs` stands for "`filepath.Abs(p)` returns `p`".

A fatal log call or a panic in the code becomes the `Err` case of a `Result`.
The one exception is the nil dereference of pants.go:24. It is a
precondition of `Pants.Overrides` instead; see "## Left out".

## Model

| member | source | states |
|---|---|---|
| Classes.CreateClasses | set.go:12-18 | the set holds exactly the given strings, and has at most as many elements as there were arguments |
| Classes.CreateClassesDistinct | set.go:12-18 | a list without repeats loses nothing: the set has as many elements as the list |
| Classes.Lister | set.go:20-26 | every member is listed exactly once and nothing else is; making a set of the list gives the set back |
| Classes.SameAsMembers | set.go:28-30 | `SameAs` holds exactly when both sets have the same members |
| Classes.Add | set.go:32-37 | the members afterwards are the previous ones plus the items; adding items that are all present already changes nothing |
| Classes.Discard | set.go:39-44 | a member stays exactly when it is not in `other`; nothing is added |
| Classes.Union | set.go:46-51 | a member is in the result exactly when it is in either set |
| Classes.Intersection | set.go:53-60 | deleting while iterating keeps exactly the members that are also in `other` |
| Classes.Copy | set.go:62-68 | the copy has exactly the original's members |
| Classes.UnionAllMembers | pyast.go:84-91 | a string is in the union of a list of sets exactly when some set of the list holds it |
| Classes.UnionAllSnoc | pyast.go:89 | unioning one more result into the accumulator adds exactly its members |
| GoStrings.RuneLen | pyast.go:370 | a code point takes one to four bytes in UTF-8, and one exactly when it is ASCII |
| GoStrings.Utf8Len | pyast.go:370 | Go's `len` of a string lies between its number of code points and four times that, and is 1 exactly for a single ASCII character |
| GoStrings.ReplaceChar | pyast.go:448 | same length, and every occurrence of the one character, and only those, replaced by the other |
| GoStrings.ReplaceCharInverse | pyast.go:448 | replacing `x` by `y` is undone by replacing `y` by `x` when `y` did not occur |
| GoStrings.LastIndex | pyast.go:365-368 | -1 exactly when the character is absent; otherwise an occurrence with none after it |
| GoStrings.Split | pyast.go:356 | one more part than there are separators, no part holds the separator, and joining the parts gives the text back |
| GoStrings.SplitJoin | pyast.go:356 | splitting undoes joining when no part holds the separator |
| GoStrings.TrimFunc | pyast.go:356 | the result is a contiguous piece of the text, only trimmed characters lie around it, and it neither starts nor ends with one |
| GoStrings.TrimPadded | pyast.go:277 | trimming removes exactly the trimmed characters around a text that neither starts nor ends with one |
| GoStrings.TrimSpaceUntouched | pyast.go:381 | a name without surrounding white space is unchanged by `TrimSpace` |
| GoStrings.TrimSpace | pyast.go:277 | the result is a contiguous piece of the text with only white space around it, neither starts nor ends with white space, and is empty only when the text is all white space |
| GoStrings.Trim | pyast.go:356 | the result neither starts nor ends with a cutset character, and it is empty only when every character is in the cutset |
| GoStrings.TrimFramed | pyast.go:356 | `Trim` keeps a contiguous piece of the text with only cutset characters around it |
| GoStrings.TrimUntouched | pyast.go:356 | a text whose ends are not in the cutset is unchanged by `Trim` |
| Codec.PathToClass | pyast.go:444-454 | an error exactly when the path lacks ".py"; otherwise the path without ".py", with each '/' and only those turned into '.' |
| Codec.ClassToPath | pyast.go:456-464 | the path is `root/`, then the class with every '.' and only those turned into '/', then "/\_\_init\_\_.py" exactly when that directory form is a directory and ".py" otherwise |
| Codec.PathRoundTrip | pyast.go:444-464 | path to class to path is the identity for a dot-free ".py" path whose directory form is not a directory |
| Codec.ClassRoundTrip | pyast.go:444-464 | class to path to class gives the class back, with ".\_\_init\_\_" added exactly when it named a directory |
| Codec.ClassOfBase | pyast.go:444-454 | the directory form of a class followed by a file suffix maps back to the class followed by that suffix's class form |
| Codec.DottedDirectoryCollides | pyast.go:448 | "a.b/c.py" and "a/b/c.py" map to the same class: the mapping is not injective |
| Strip.FindClose | pyast.go:266 | the lazy search finds the first closing run after a non-empty, newline-free middle, or proves that none exists |
| Strip.BlockAt | pyast.go:266 | a block starts the text exactly when some closing run exists; the one matched is the shortest |
| Strip.DropBlocks | pyast.go:266-269 | never longer than the text, and a text without the quote character is unchanged |
| Strip.NoTripleKept | pyast.go:266-269 | a text with no run of three quote characters passes the block pass unchanged |
| Strip.BlocksKeepLines | pyast.go:266-269 | the block pass keeps every line break |
| Strip.BlocksSkipPlain | pyast.go:266-269 | text without the quote character passes through the block pass unchanged |
| Strip.BlockDeleted | pyast.go:266-269 | a single-line triple-quoted block with a non-empty, quote-free middle is deleted whole |
| Strip.QuoteEnd | pyast.go:270 | the lazy string match ends at the first closing quote on the same line, or none exists |
| Strip.LineEnd | pyast.go:270 | the first '\r' or '\n' at or after the offset, or the end of the text |
| Strip.TokenAt | pyast.go:270-276 | a quote closed on its own line always starts a quoted string, which ends at the first such closing quote; a '#' whose line ends in '\n' or the end of the text, before any '\r', always starts a comment running exactly to that line end; any other first character is plain |
| Strip.DropComments | pyast.go:270-276 | never longer than the text, and a text without '#' is unchanged |
| Strip.CommentsKeepLines | pyast.go:270-276 | the comment pass keeps every line break |
| Strip.PlainStep | pyast.go:270-276 | a character that starts neither a string nor a comment is kept |
| Strip.CommentsSkipPlain | pyast.go:270-276 | text without quotes or '#' passes through the comment pass unchanged |
| Strip.QuotedKept | pyast.go:272-273 | a single-line quoted string is kept verbatim, even when it holds a '#' |
| Strip.LineEndAfter | pyast.go:270 | the line of a comment ends right after its line-break-free text |
| Strip.CommentDeleted | pyast.go:270-276 | a '#' comment running to a '\n' or to the end is deleted, and the '\n' stays |
| Strip.CarriageReturnKeepsComment | pyast.go:270 | `$` does not match before '\r', so a comment ending a "\r\n" line stays |
| Strip.PlainTextKept | pyast.go:265-276 | text without quotes or '#' passes through all three passes unchanged |
| Strip.StripComments | pyast.go:265-278 | never longer than the source, and neither starts nor ends with white space |
| Strip.StripInert | pyast.go:265-278 | a text without quotes or '#' only loses its outer white space |
| Strip.StripKeepsQuoted | pyast.go:265-278 | a single-line quoted string between code without quotes or '#' survives all three passes, even when it holds a '#' |
| Strip.StripDropsComment | pyast.go:265-278 | a '#' comment after code without quotes is removed up to its line break, which stays |
| Strip.StripDropsBlock | pyast.go:265-278 | a single-line triple-quoted block between code without quotes or '#' is removed whole |
| Extract.SplitNames | pyast.go:354-359 | without a comma, the one name as matched; with one, at least two comma-free names that join back to the parenthesis-trimmed text |
| Extract.CommaSurvivesTrim | pyast.go:355-356 | trimming parentheses never removes a comma |
| Extract.Candidates | pyast.go:378-390 | holds the dependency and its ".\_\_init\_\_", and at most three classes |
| Extract.CandidatesMembers | pyast.go:378-390 | the candidates are exactly the dependency, its ".\_\_init\_\_" and its non-empty parent |
| Extract.LeadingDots | pyast.go:364 | the length of the run of '.' at the start of the package name |
| Extract.Ascend | pyast.go:363-369 | one trailing segment goes per leading dot; no dot in the importer is one error, too many dots another |
| Extract.ResolvePackage | pyast.go:361-375 | an absolute package is kept; a relative one becomes the ancestor its dots name plus the rest of the name; it fails exactly when it is not resolvable |
| Extract.Dependency | pyast.go:380-384 | the trimmed name without a package; under a package, the package, a '.' and then the trimmed name, so that a dot-free name has that package as its parent |
| Extract.ResolvePackageAsWritten | pyast.go:361-375 | as the code does it: resolvable exactly as the correction; equal to the correction unless the rest after the dots is exactly one byte long in UTF-8, and then only the ancestor the dots name |
| Extract.AscendOne | pyast.go:364-368 | one leading dot strips the last segment of the parent |
| Extract.ResolveSibling | pyast.go:361-375 | `from .rest` in module `a.last` names `a.rest`, as written too when `rest` is not exactly one byte long |
| Extract.ResolveAunt | pyast.go:361-375 | `from ..rest` in module `a.mid.last` names `a.rest`, as written too when `rest` is not exactly one byte long |
| Extract.SingleLetterSiblingDropped | pyast.go:370-374 | as written, `from .x` with an ASCII `x` names the importer's own package; the correction names `a.x` |
| Extract.MultiByteSiblingKept | pyast.go:370-372 | as written, `from .x` with a non-ASCII `x` names `a.x`, since `len` counts its several bytes |
| Extract.ExtractMatch | pyast.go:353-390 | one statement, resolved as the code does it, succeeds exactly when its package resolves |
| Extract.ExtractMatchMembers | pyast.go:353-390 | a statement yields exactly the candidates of its names under the package as the code resolves it |
| Extract.ExtractMatchIntended | pyast.go:353-390 | under the corrected resolution, one statement succeeds exactly when its package resolves, and agrees with the code unless one byte follows the dots |
| Extract.SingleLetterSiblingExtract | pyast.go:370-390 | `from .x import y` with an ASCII `x` in `a.last` yields the candidates of `a.y` as written, and those of `a.x.y` under the correction |
| Extract.Gather | pyast.go:352-392 | success exactly when every statement succeeds; the union of their classes and nothing else; otherwise the first error |
| Extract.ExtractImports | pyast.go:349-393 | success exactly when every statement resolves, and then every statement's classes are in the result |
| Extract.ExtractImportsIntended | pyast.go:349-393 | the extraction under the corrected resolution succeeds exactly when every statement resolves |
| Extract.ExtractImportsAgree | pyast.go:370-374 | a module without a one-byte relative package gives the same result as written and under the correction |
| Extract.ExtractImportsMeaning | pyast.go:349-393 | success exactly when every statement resolves; then every class of every statement and nothing else; otherwise the error of the first unresolvable statement |
| Extract.GatherSameMembers | pyast.go:352-392 | only which results occur matters, not their order or repetition |
| Extract.ExtractOrderInsensitive | pyast.go:349-393 | reordering or repeating statements changes neither success nor the classes |
| Extract.GatherAppend | pyast.go:352-392 | a list that succeeds succeeds on each part, with the union of the parts' classes |
| Extract.ExtractAppend | pyast.go:349-393 | extraction distributes over concatenation of the statements |
| Graph.AddPair | pyast.go:186-191 | the imported class gets a node on first sight, with that pair's `isClass`, and gains the importer; other nodes keep their importers and `isClass` |
| Graph.BuildNodes | pyast.go:184-192 | the keys are exactly the imported classes; each key's importers are exactly those of the pairs naming it; the first such pair decides `isClass` |
| Graph.FirstPairDecides | pyast.go:186-190 | a later pair never changes `isClass` of a node created earlier |
| Graph.SameElementsSameEdges | pyast.go:184-192 | pair lists with the same elements record the same classes and importers |
| Graph.BuildNodesOrderInsensitive | pyast.go:184-192 | when all pairs agree on `isClass`, arrival order and repetition do not change the node map |
| Graph.ChainStaysInside | pyast.go:64-79 | a chain of reverse edges from inside a closed set stays inside it |
| Graph.ClosedContainsDependees | pyast.go:64-79 | every closed set holding the seeds holds all their dependees |
| Graph.DependeesClosed | pyast.go:64-79 | the dependees hold the seeds, and no reverse edge leaves them |
| Graph.ClosedReachableIsDependees | pyast.go:64-79 | a closed set of reachable classes that holds the seeds is exactly the dependees |
| Graph.DependeesIdempotent | pyast.go:64-79 | expanding the dependees again adds nothing |
| Graph.AddClass | pyast.go:53-62 | reports true exactly when the class was absent, and the class is in the set afterwards |
| Graph.ExtendWitness | pyast.go:71-75 | a chain to a class followed by one of its importers is a chain to that importer |
| Graph.Expand | pyast.go:70-78 | each importer of the class that `AddClass` reports as new is marked seen and scheduled, with a chain from a seed |
| Graph.ExpandSettles | pyast.go:70-78 | after expanding a class, every class no longer scheduled has all its importers seen |
| Graph.Closure | pyast.go:98-119 | the emitted classes hold the seeds, are closed under reverse edges, are all reachable, and are exactly the dependees |
| Graph.SeedClassAsWritten | pyast.go:106-116 | as the code does it: a path that is not prefixed by the root seeds nothing; a path equal to the root slices past its end; any longer prefixed path whose text after the root ends in ".py" seeds the class of that text |
| Graph.SeedClass | pyast.go:106-116 | a path seeds a class exactly when it is a ".py" file inside the root directory, and the class is that of its relative path |
| Graph.SeedClassAgrees | pyast.go:106-116 | for a path inside the root directory the code and the correction agree |
| Graph.SiblingDirectorySeeds | pyast.go:106-110 | as written, "/src/app2/mod.py" seeds ".mod" in the tree rooted at "/src/app"; the correction seeds nothing |
| Graph.Seeds | pyast.go:100-117 | as written: every class of the text after the root position of a changed path that has the root as a bare prefix, and nothing else |
| Graph.IntendedSeeds | pyast.go:100-117 | under the correction, exactly the classes seeded by a changed path inside the root directory |
| Graph.SeedsAgree | pyast.go:106-116 | when every changed path with the root as a prefix lies under `root/`, the code and the correction seed the same classes |
| Graph.SiblingDirectorySeedsTree | pyast.go:106-116 | as written, "/src/app2/mod.py" seeds ".mod" in the tree rooted at "/src/app"; the correction seeds nothing |
| Graph.TreeDependees | pyast.go:94-127 | an error exactly when some path is not absolute or is the root itself; otherwise the file of every dependee of the seeds |
| Graph.ChangedFileReported | pyast.go:94-127 | a changed module file under the root, whose path maps back to itself, is reported |
| Graph.ImporterReported | pyast.go:64-79 | an importer of a reported class is reported too |
| Graph.ForestDependees | pyast.go:81-92 | an error exactly when there is a tree and some path is not absolute, or some tree's root is a changed path; otherwise the union of every tree's result |
| Graph.ForestResultIsUnion | pyast.go:81-92 | a file is reported by the trees exactly when some tree reports it |
| Roots.Dir | pyast.go:428 | a path without '/' gives "."; otherwise the text before its last '/', or "/" when that '/' is the first character |
| Roots.ClimbsStep | pyast.go:429-438 | a walk of n+1 steps from a directory is one step to its parent followed by a walk of n steps |
| Roots.FindRoot | pyast.go:428-438 | the root is the first directory of the walk without `__init__.py`; a failure is a walk ending at a directory that still has `__init__.py` but a missing or identical parent |
| Roots.ClimbFound | pyast.go:429-438 | a root found from the parent is found from the directory one step later |
| Roots.ClimbStuck | pyast.go:429-438 | a walk that gets stuck from the parent gets stuck from the directory one step later |
| Roots.RootContainsDir | pyast.go:428-438 | for an absolute path, the root found is a prefix of the starting directory |
| Roots.AbsoluteParent | pyast.go:433 | the parent of an absolute path is an absolute prefix of it |
| Roots.CalculatePythonRoots | pyast.go:417-442 | an error exactly when some path's walk fails, and then that walk's error; otherwise exactly the roots of the paths `filepath.Abs` accepts |
| Pants.ArgOverrides | pants.go:23-27 | nothing for an argument not named "overrides"; otherwise the names of its dict's elements, one per element, in order |
| Pants.ArgsOverrides | pants.go:22-28 | nothing when no argument is named "overrides" |
| Pants.ArgsOverridesAppend | pants.go:22-28 | the listing follows argument order: the arguments' listing is the first part's followed by the rest's, duplicates kept |
| Pants.DirectiveOverrides | pants.go:21-29 | nothing for a directive other than "python\_sources" |
| Pants.DirectivesOverrides | pants.go:20-30 | nothing when no directive is named "python\_sources" |
| Pants.Overrides | pants.go:15-32 | a nil directive list gives the empty list |
| Pants.ArgsOverridesMembers | pants.go:22-28 | a name is listed for the arguments exactly when it is a key of an "overrides" argument's dict |
| Pants.DirectivesOverridesMembers | pants.go:20-30 | a name is listed exactly when it is a key of an "overrides" dict of a "python\_sources" directive |
| Pants.OverridesMembers | pants.go:15-32 | the same, for a whole BUILD file |
| Pants.DirectivesOverridesAppend | pants.go:20-30 | the listing follows directive order: a file's listing is its first part's followed by the rest's, duplicates kept |
| Pants.OtherDirectivesIgnored | pants.go:21 | a directive other than "python\_sources" contributes nothing |
| Scenarios.StripTripleSingle | pyast_test.go:12-14 | `import foo ''' or not'''` strips to `import foo` |
| Scenarios.StripTripleDouble | pyast_test.go:16-18 | `import foo """ or not"""` strips to `import foo` |
| Scenarios.StripHashComment | pyast_test.go:21-23 | `import foo # or not` strips to `import foo` |
| Scenarios.StripNothing | pyast_test.go:26-28 | an import line without quotes or comments is kept |
| Scenarios.StripMultiLine | pyast_test.go:31-39 | comments inside a parenthesised import go, line breaks stay, outer blank space is trimmed |
| Scenarios.CommentThenRest | pyast.go:270-276 | a comment after a text without quotes or '#' is deleted up to its line break |
| Scenarios.TwoCommentsDeleted | pyast.go:270-276 | two comments, each ending at a line break, are deleted and the texts around them kept |
| Scenarios.PlainLineKept | pyast.go:265-278 | a text without quotes, '#' or outer white space is kept whole |
| Scenarios.ExtractOne | pyast.go:352-392 | one statement contributes exactly its own result |
| Scenarios.ExtractTwo | pyast.go:352-392 | two resolvable statements contribute the union of their classes |
| Scenarios.OneName | pyast.go:355-358 | a name list without a comma is one dependency |
| Scenarios.ManyNames | pyast.go:355-356 | a name list with commas gives exactly the candidates of each comma-separated name |
| Scenarios.ThreeNames | pyast.go:355-390 | a list of three names gives the union of their three candidate sets |
| Scenarios.TopLevelCandidates | pyast.go:380-389 | a dependency without a dot stands for itself and its ".\_\_init\_\_" only |
| Scenarios.NestedCandidates | pyast.go:383-389 | a dependency under a package also stands for that package |
| Scenarios.PlainImport | pyast.go:378-389 | `import name` gives the module and its ".\_\_init\_\_" |
| Scenarios.FromImportOne | pyast.go:378-389 | `from pkg import name` gives `p.name`, its ".\_\_init\_\_", and `p` |
| Scenarios.TopLevelList | pyast.go:355-389 | `import a, b,c` gives each name with its ".\_\_init\_\_" |
| Scenarios.NestedList | pyast.go:355-389 | `from pkg import a, b,c` gives each `p.name` with its ".\_\_init\_\_", and `p` |
| Scenarios.NestedPair | pyast.go:355-389 | `from pkg import a, b` gives each `p.name` with its ".\_\_init\_\_", and `p` |
| Scenarios.ImportModule | pyast_test.go:43-47 | `import foo` gives foo and foo.\_\_init\_\_ |
| Scenarios.ImportTwo | pyast_test.go:49-54 | `import foo` and `import bar` give both names with their ".\_\_init\_\_" |
| Scenarios.ImportList | pyast_test.go:56-60 | `import foo, bar,baz` gives the three names with their ".\_\_init\_\_" |
| Scenarios.FromImport | pyast_test.go:62-66 | `from foo import baz` gives foo.baz, foo.baz.\_\_init\_\_ and foo |
| Scenarios.SiblingImport | pyast_test.go:78-84 | `from .sibling import foo, bar,baz` in myapp.\_\_init\_\_ gives the names under myapp.sibling, and myapp.sibling |
| Scenarios.AuntImport | pyast_test.go:86-90 | `from ..aunt import foo` in myapp.utils.\_\_init\_\_ gives myapp.aunt.foo, its ".\_\_init\_\_" and myapp.aunt |
| Scenarios.ServicesImport | pyast_test.go:92-96 | `from myapp.deploy.services import foo, bar` gives both names under that package, and the package |
| Scenarios.BuildFileOverrides | pants_test.go:9-29 | the example BUILD file overrides exactly "admplugin.py" |

## Left out

- Reading files, walking directories (`buildDependencies`, `scan`), the cache
  (`createDependencies`), the dump file, logging and Sentry are I/O. They are
  not modelled. A fatal log call becomes an `Err` result.
- The import regular expression of `extractImportsFromModule` (pyast.go:350)
  is not modelled. Its matches, as pairs of group 1 and group 2, are the input
  of `Extract.ExtractImports`.
- Goroutines, the wait group, the channels and the mutex are concurrency. The
  dependee walk is modelled as a sequential worklist, and `Graph.Closure`
  proves that its result is the reachability closure whatever order is chosen.
- `BuildTrees` and the parsing of BUILD files by participle are not modelled.
  `Pants` takes the parsed directives as input.
- `filepath.Abs`, `filepath.Dir`, `filepath.Join`, `file.FileExists` and
  `file.DirExists`:
  - `Dir` is modelled on clean paths.
  - `Join` is `root + "/" + rel`.
  - The others are oracle parameters.
- Codec.ClassToPath: `isDir` is applied to the class's directory form alone,
  as the code does (pyast.go:458). The model does not say which directory
  that is relative to.
- Strip.DropBlocks and Strip.DropComments: their own contracts state only
  length and the quote-free or '#'-free case. Their meaning is in the lemmas
  about them (`BlocksKeepLines`, `BlockDeleted`, `CommentsKeepLines`,
  `QuotedKept`, `CommentDeleted` and the rest).
- Strip.StripComments: its own contract states only length and the trimmed
  ends. What it does to code, strings, comments and blocks is in
  `StripInert`, `StripKeepsQuoted`, `StripDropsComment` and
  `StripDropsBlock`. These cover each construct between plain code, not every
  mixture of them.
- Pants.Overrides: an "overrides" argument whose value is not a dict makes
  the code dereference a nil pointer (pants.go:24) and panic. The model does
  not return an error for it. Its functions require `Readable` instead, which
  says that every such argument of a "python\_sources" directive carries a
  dict.
- Graph.TreeDependees: the changed paths are a Go map, so when both a
  relative path and the root itself are among them, which failure happens
  first depends on iteration order. The model reports the relative path.
- Strip: characters are code points. Go's regexp works on UTF-8 and treats an
  invalid byte as U+FFFD. The model has no invalid encodings.
- Extract.ResolvePackageAsWritten: strings are code points here too; the one
  place where Go's byte length decides a branch (pyast.go:370) is modelled by
  `Utf8Len`.
- Graph.SeedClassAsWritten: pyast.go:110 skips one byte after the root. When
  a bare-prefix match is followed by a non-ASCII character, Go cuts that
  character in half; the model skips the whole character. Only paths in a
  sibling directory, already wrongly seeded, are affected.
- Classes.SameAs: `reflect.DeepEqual` (set.go:29) tells a nil map from an
  empty one. The model has no nil set; every set of the core comes from
  `make`.
- Roots.CalculatePythonRoots: a directory that is its own parent but still has
  an `__init__.py` makes the code loop forever. The model reports this as
  `NoTopLevel`.
- Roots.CalculatePythonRoots: the check for a ".py" suffix (pyast.go:420-422)
  only logs, so every path is walked, and so does the model.
- pyast_test.go:70-76, the parenthesised four-name import, is not stated as a
  concrete lemma. `Scenarios.ManyNames` covers it in general.
- pants_test.go:27-28 prints the parse tree and the overrides and then
  always fails. `Scenarios.BuildFileOverrides` states the value it prints.

## Findings

| source | as written | input that shows it | evidently intended | confidence | as-written member | corrected member |
|---|---|---|---|---|---|---|
| pyast.go:370-374 | the rest of a relative package name is appended only when it is longer than one byte (`len(packageName) > 1`) | `from .x import y` in module `a.b`: resolves to package `a` instead of `a.x` | append the rest whenever it is not empty | not executed | Extract.SingleLetterSiblingDropped | Extract.ResolvePackage |
| pyast.go:106-110 | a changed path belongs to a tree when it starts with the root string, with no separator required | "/src/app2/mod.py" against root "/src/app" seeds the class ".mod"; a path equal to the root is sliced past its end | require the root followed by '/' | not executed | Graph.SiblingDirectorySeeds | Graph.SeedClass |

The pipelines model the code as written. `Extract.ExtractImports` resolves
packages with `ResolvePackageAsWritten`, and `Graph.TreeDependees` seeds with
`SeedClassAsWritten`. The corrections sit beside them:
- `Extract.ExtractImportsIntended` is built on `ResolvePackage`.
  `Extract.ExtractImportsAgree` proves that the two agree on every module
  without a one-byte relative package. `Extract.SingleLetterSiblingExtract`
  shows a whole statement on which they differ.
- `Graph.IntendedSeeds` is built on `SeedClass`. `Graph.SeedsAgree` proves
  that the two agree when every path with the root as a prefix lies under
  `root/`. `Graph.SiblingDirectorySeedsTree` shows a tree on which they differ.
