# Hash-API verifier, modelled in Dafny

The hash-API verifier is a completeness check for a structural-hash visitor
over the clang AST. It looks for every function whose qualified name contains
`StructuralHashVisitor::Visit`. When such a visitor has exactly one parameter,
and that parameter points or refers to a class, the class is an API class. The
tool records every member call that a visitor body makes on a receiver of
exactly its own API class.

The catalog is every public, `const`, instance method of an API class whose
return type and qualified name escape two tables of exclusion patterns. A
catalog method is a violation when no visitor calls it and the ignore list does
not name it. Violations are printed in `std::set` order. The exit status is 0
when there are none and 1 otherwise.

The model keeps the tool's logic and replaces the clang AST with a small
abstract program (`ProgramModel`):
- function declarations carry a qualified name, parameters and a body tree;
- each parameter is given by the class it points or refers to, if any;
- classes carry their methods;
- methods carry a qualified name, the instance flag, the access, the `const`
  flag and the printed return type.

Everything is a pure function over immutable data. The modules are:

- `Strings`: the suffix test `hasEnding` and the substring search of `find`.
  It also holds the index after the last colon (used by the scoped-suffix
  filters) and the `std::string` order, proved irreflexive, transitive and
  total.
- `SortedSets`: a `std::set<std::string>`, held as a strictly sorted sequence.
  It covers insertion, filtering while iterating, and the fact that a sorted
  listing is fixed by its contents.
- `IgnoreList`: the line filter of `ReadLines`. If the file cannot be opened,
  the tool's failure assertion can never fire, so the model reads such a file
  as an empty ignore list.
- `Filters`: each regular expression of the two filter tables is a `Pattern`
  with a matcher. `Denotes` gives the pattern's regular language, stated
  independently. `ShouldCheckMethod` is proved equal to a plain statement of
  the exclusion rules.
- `Visitors`: the visitor locator and the call collector. The body walk lists
  every member-call node exactly when it occurs in the tree. Recording uses
  exact class identity.
- `Coverage`: the catalog, the difference, the sorted report and the exit
  status. It also holds the whole-run properties.

Notes on the tool's behaviour:
- The return-type table excludes any type that *contains* `_begin` or `_end`,
  not just types ending in them.
- The `::begin_X` and `::end_X` patterns only match when that segment is the
  last one, because the tail may not contain a colon.
- An unreadable ignore list is not a fatal error. It reads as empty.
- A parameter that is a class taken by value gives no target. The class lookup
  only looks through pointers and references.

Characters compare by code point. This agrees with `std::string`'s unsigned
byte order on UTF-8 text.

## Model

| member | source | states |
|---|---|---|
| Strings.HasEnding | main.cpp:48-54 | the suffix test is true iff the ending occurs in the string at the index where it ends the string; it is false whenever the ending is longer than the string |
| Strings.HasEndingIffConcat | main.cpp:48-54 | the suffix test holds exactly of strings that are some prefix followed by the ending |
| Strings.Contains | main.cpp:87 | `find(...) != npos` is true iff the marker occurs at some index of the name |
| Strings.LessIffFirstDifference | main.cpp:172 | the order of the `std::set` of names is `std::string::compare` order: a proper prefix comes first, otherwise the first differing character decides |
| Strings.LessTransitive | main.cpp:172 | the string order is transitive, so the set iteration order is consistent |
| Strings.LessTotal | main.cpp:172 | any two distinct names are ordered one way or the other |
| Strings.LessIrreflexive | main.cpp:172 | no name sorts before itself, so the set holds no name twice |
| SortedSets.Insert | main.cpp:179 | inserting a name into the sorted set keeps it strictly sorted and yields exactly the old names plus the new one |
| SortedSets.InsertAll | main.cpp:176-182 | inserting names one by one yields a strictly sorted set of exactly the old and the inserted names |
| SortedSets.KeepAbsent | main.cpp:184-189 | iterating the catalog and keeping the names that are in neither the ignore set nor the observed calls keeps exactly those names, still strictly sorted |
| SortedSets.SortedUnique | main.cpp:184-189 | two strictly sorted listings with the same names are identical, so the report order is fixed by its contents |
| SortedSets.SortedHasNoDuplicates | main.cpp:172 | a strictly sorted listing never repeats a name |
| IgnoreList.EntriesOf | main.cpp:36-38 | the ignore set is exactly the lines that are non-empty and do not start with `#`, untrimmed, duplicates collapsed |
| IgnoreList.ReadLines | main.cpp:30-46 | an unreadable file gives the empty set; a readable one gives exactly its non-empty, non-comment lines |
| IgnoreList.AppendedLinesExtend | main.cpp:36-38 | appending lines to the ignore file adds exactly the entries among them |
| Filters.ScopedSuffixMatch | main.cpp:108-116 | the check done from the last colon decides exactly the language "anything, `::`, the stem, one or more non-colon characters" |
| Filters.FullMatch | main.cpp:121 | a whole-string match of a filter holds exactly on the filter's regular language |
| Filters.MatchesAnyFilter | main.cpp:119-126 | a string matches the table iff it is in the language of some filter of the table |
| Filters.ReturnTypeFiltersMeaning | main.cpp:104-110 | the return-type table matches exactly `class clang::SourceLocation`, types containing `_begin` or `_end`, and types ending in a `::begin_X` or `::end_X` segment with X non-empty and colon-free |
| Filters.NameFiltersMeaning | main.cpp:112-117 | the name table matches exactly names ending in `_begin` or `_end`, and names ending in a `::begin_X` or `::end_X` segment with X non-empty and colon-free |
| Filters.ShouldCheckMethod | main.cpp:128-136 | a method is checked iff it is an instance method, public and const, and neither its return type nor its name is excluded |
| Filters.BeginSegmentNeverChecked | main.cpp:115 | a method named `P::begin_X`, X non-empty and colon-free, is never checked |
| Filters.FooBeginBarNeverChecked | main.cpp:115 | `Foo::begin_bar` is never checked, whatever its other attributes |
| Filters.SourceLocationNeverChecked | main.cpp:105 | a method returning `class clang::SourceLocation` is never checked |
| Visitors.IsVisitor | main.cpp:87 | a declaration is a visitor iff `StructuralHashVisitor::Visit` occurs at some index of its qualified name |
| Visitors.TargetOf | main.cpp:89-96 | the target is the class of the single parameter; zero or several parameters, or a parameter not pointing or referring to a class, give the null target |
| Visitors.Sites | main.cpp:97-98 | the body walk lists a call site iff a member-call node with that receiver and callee occurs somewhere in the tree, nested sub-expressions included |
| Visitors.SitesOfAll | main.cpp:97-98 | walking a list of statements lists a call site iff it occurs in one of them |
| Visitors.RecordCalls | main.cpp:70-75 | a name is recorded iff it was recorded before or some call on a receiver identical to the target invokes it; a null target records nothing |
| Visitors.VisitFunctionDecl | main.cpp:85-101 | a non-visitor changes nothing; a visitor adds exactly its target to the API classes and exactly its target's calls to the member calls |
| Visitors.ScanFunctions | main.cpp:165-166 | after the scan, the API classes are exactly the targets of visitors and the member calls are exactly the names some visitor calls on its own target |
| Visitors.AppendedStatementCalls | main.cpp:70-72 | a statement added to a body adds exactly the calls on the target that it makes |
| Visitors.OtherReceiverNotRecorded | main.cpp:71 | a call on a receiver of any class other than the target leaves the visit's outcome unchanged |
| Visitors.TargetCallRecorded | main.cpp:71-72 | a call on the target class in a visitor is recorded |
| Visitors.NullTargetRecordsNothing | main.cpp:89-97 | a visitor whose target is null adds no API class and no member call |
| Coverage.CheckedNames | main.cpp:177-181 | the listed names are exactly the names of the methods that pass the filter |
| Coverage.CatalogNames | main.cpp:176-182 | the catalog lists exactly the names of checked methods of classes in the API set |
| Coverage.ExitCode | main.cpp:191-198 | the status is 0 or 1: 0 iff no method is missing, 1 iff some method is missing |
| Coverage.Analyze | main.cpp:165-199 | violations are strictly sorted and are exactly the catalog names that no visitor calls on its target and that the ignore list does not name; the status is 0 iff there are none and 1 iff there are some |
| Coverage.IgnoringViolationsClears | main.cpp:184-189 | appending the reported violations to the ignore file and running again reports nothing and exits 0 |
| Coverage.NoVisitorsPasses | main.cpp:176-192 | when no function name contains the visitor marker, nothing is reported and the status is 0 |
| Coverage.OrderDoesNotMatter | main.cpp:172-189 | the report depends only on which declarations exist, not on their order |
| Coverage.AddStatementEffect | main.cpp:85-98 | adding a statement to one function leaves the API classes unchanged and adds exactly the calls it makes on that visitor's target |
| Coverage.TargetCallCovers | main.cpp:184-189 | calling a method on a visitor's target removes exactly that method from the report |
| Coverage.OtherReceiverChangesNothing | main.cpp:70-73 | a call on a receiver whose class is not exactly the target, such as a subclass, leaves the report unchanged |
| Coverage.WidgetScenarioPasses | main.cpp:128-135 | a `Widget` class with `getId`, `begin_children` and `getLocation`, where the visitor calls only `getId`, reports nothing |

## Left out

- Building the clang AST and the `RecursiveASTVisitor` dispatch are replaced
  by the `ProgramModel` datatypes and a recursive walk of the body tree. The
  declarations come in as a sequence, and the model does not say which
  declarations clang visits (templates, implicit code).
- `getPointeeCXXRecordDecl` and `getRecordDecl` are not modelled. Their
  results are given: each parameter carries the class it points or refers to,
  if any, and each member call carries its receiver's class.
- Member calls whose receiver has no class (calls through a pointer to
  member) are not modelled. Every modelled call has a receiver class. In the
  tool, such a call in a visitor with a null target would match and then
  dereference a null method declaration.
- The hard-coded compiler flags and `getFileContents` are left out. They are
  plumbing with no behaviour to state.
- Reading the ignore file and splitting it into lines are left out. The model
  takes the lines, or `None` when the file cannot be opened.
- `assert(argc == 3)` and printing the header and the names to the error
  stream are left out. The report keeps the ordered violation list and the
  exit status.
- No general regular-expression engine is modelled. Each table entry is one
  of four pattern shapes, and its language is stated directly.
- Visitors.Sites: the contract states that the walk is exhaustive, not the
  order in which it visits nodes. Recording goes into a set, so the order has
  no effect.
