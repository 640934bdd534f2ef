# AmfDiscoveryService, modelled in Dafny

`AmfDiscoveryService` is the amfPHP discovery service of a Yii application.
It tells an AMF client which services the gateway offers. It walks the
service folders for PHP files and adds the explicitly registered classes.
For each service it asks the service router for an instance, then uses
reflection to describe the instance's public methods. A method's parameter
types come from declared classes or from the `@param` tags of its doc
comment, and its return type from the `@return` tag. Last, it drops every service whose name holds one of the
exclude patterns.

The model is split into one module per part of the class:

- `Optional` (`option.dfy`): the `Option` type. It stands in where PHP returns `false` or where an array slot is unset.
- `PhpStrings` (`php_strings.dfy`): the PHP string functions the class relies on, with their PHP edge cases.
  - `str_replace` is a leftmost, non-overlapping scan.
  - `explode` splits on one character.
  - A missing array index reads as `''`.
  - `trim` strips `" \t\n\r\0\x0B"`.
  - `strtolower` is ASCII-only.
  - `strpos` returns the first occurrence or false; an empty needle is found at 0, as in PHP 8.
  - `substr($s, 0, 1)` is also modelled.
- `DocComment` (`doc_comment.dfy`): `parseMethodComment`.
  - An imperative loop over the `@` fragments, proved against the function `ParseComment`.
  - Lemmas: last declaration wins, the return field is always set, and the source's quirks (a stray `/`, a doubled space, a missing word).
- `DocCommentExamples`: a concrete comment worked through the parser.
- `ServiceLocator` (`service_locator.dfy`): `searchFolderForServices` and `getServiceNames`.
  - Both work over an abstract directory tree. A `Listing` is what `scandir` returns (`Unlistable` where it returns false). An entry is a `Dir` exactly when `is_dir` holds for its path. A root path missing from the `FileSystem` map cannot be listed.
  - The recursive walk and the two loops of `getServiceNames` are methods, proved against the functions `ListingServices` and `ServiceNames`.
- `ServiceWalk` (`service_walk.dfy`): the walk over a whole tree, described without its recursion. A location is the list of entry indices leading through directories to one entry. `Walked` says which locations the walk reaches, `PathAt` gives their slash-joined paths, and `ServicesOfTree` proves that the walk reports each reached service file exactly once, under its path.
- `Discovery` (`discovery.dfy`): `discover` and `_getMethodRoles`.
  - The static fields are a `Config` value. `DefaultConfig` holds their initial values.
  - Reflection results are input records: `ServiceObject`, `ReflectedMethod` and `ReflectedParameter`.
  - `ServiceRouter::getServiceObjectStatically` is a total function parameter, `Instantiator`. It returns `None` where the router fails, and a failure aborts the whole call (`InstantiationFailed`).
  - The build loop, the method loop, the parameter loop and the two-level filter loop are methods, proved against `BuildCatalog`, `MethodsOf`, `DescribeParameters`, `Filtered` and `DiscoverResult`.

Where the documentation and the code differ, the code is followed:

- The parser's own doc comment (lines 108-110) says the type is the "first word after the tag name" and that tags are `param` and `return`. The code compares the first five or six characters of each fragment. So `@parameter`, `@paramfoo` and `@returns` also count as tags.
- A `param` fragment with too few words is not skipped. It records the name `''` and/or the type `''` (`MissingWordGivesEmpty`).
- The third `str_replace` (closing delimiter) can never match, because every star is already gone. So the slash of `*/` survives into the last fragment (`StripKeepsClosingSlash`, `ReturnBeforeCloseKeepsSlash`).
- `strpos($fileName, ".php")` is truthy only when the FIRST occurrence of ".php" is after index 0. So `.php.bak.php` is not a service, although it contains a later ".php" (`ServiceFileNameIff`).

## Model

| member | source | states |
|---|---|---|
| PhpStrings.RemoveAll | protected/modules/amfGateway/components/AmfDiscoveryService.php:117-119 | `str_replace(pat, '', s)` never lengthens the text, and removing a leading match shortens it by the pattern's length |
| PhpStrings.RemoveAllLeading | protected/modules/amfGateway/components/AmfDiscoveryService.php:117 | a match at the start is removed and the scan resumes after it |
| PhpStrings.RemoveAllSkipsClean | protected/modules/amfGateway/components/AmfDiscoveryService.php:117-119 | text that cannot start a match is kept unchanged in front of the rest |
| PhpStrings.RemoveAllNoFirstChar | protected/modules/amfGateway/components/AmfDiscoveryService.php:119 | a text without the pattern's first character is left as it is |
| PhpStrings.RemoveCharExact | protected/modules/amfGateway/components/AmfDiscoveryService.php:118 | after removing one character, a character occurs exactly when it occurred before and is not the removed one |
| PhpStrings.RemoveCharConcat | protected/modules/amfGateway/components/AmfDiscoveryService.php:118 | removing one character distributes over concatenation, so it acts on each character on its own |
| PhpStrings.RemoveCharSingle | protected/modules/amfGateway/components/AmfDiscoveryService.php:118 | removing a character from a one-character text empties it exactly when that is the character, and keeps it otherwise |
| PhpStrings.Explode | protected/modules/amfGateway/components/AmfDiscoveryService.php:120 | `explode` gives at least one piece and no piece holds the separator |
| PhpStrings.ImplodeExplode | protected/modules/amfGateway/components/AmfDiscoveryService.php:120 | joining the pieces with the separator gives back the text |
| PhpStrings.ExplodeImplode | protected/modules/amfGateway/components/AmfDiscoveryService.php:120 | separator-free pieces joined and split again are the same pieces |
| PhpStrings.ExplodeFirstPiece | protected/modules/amfGateway/components/AmfDiscoveryService.php:125 | a separator-free piece followed by the separator becomes the first piece |
| PhpStrings.ExplodeNoSep | protected/modules/amfGateway/components/AmfDiscoveryService.php:125 | a text without the separator is one piece |
| PhpStrings.ExplodeStep | protected/modules/amfGateway/components/AmfDiscoveryService.php:125 | a separator-free piece and a separator in front of a text add that piece in front of the text's pieces |
| PhpStrings.ExplodeTwoWords | protected/modules/amfGateway/components/AmfDiscoveryService.php:131 | two space-free words, each followed by a space, are the first two words |
| PhpStrings.ExplodeThreeWords | protected/modules/amfGateway/components/AmfDiscoveryService.php:125 | three space-free words, each followed by a space, are the first three words |
| PhpStrings.ExplodePiecesClean | protected/modules/amfGateway/components/AmfDiscoveryService.php:120 | no piece of `explode` holds the separator |
| PhpStrings.WordClean | protected/modules/amfGateway/components/AmfDiscoveryService.php:126 | `$words[k]` of an `explode` never holds the separator, and it is one of the pieces unless it is the missing-slot `''` |
| PhpStrings.TrimStart | protected/modules/amfGateway/components/AmfDiscoveryService.php:126 | the result is a suffix, what was dropped is all trim characters, and it does not start with one |
| PhpStrings.TrimEnd | protected/modules/amfGateway/components/AmfDiscoveryService.php:126 | the result is a prefix, what was dropped is all trim characters, and it does not end with one |
| PhpStrings.Trim | protected/modules/amfGateway/components/AmfDiscoveryService.php:126-127 | `trim` is a slice of the text that cuts off only trim characters at either end, and it neither starts nor ends with one |
| PhpStrings.TrimOmits | protected/modules/amfGateway/components/AmfDiscoveryService.php:126-127 | `trim` never introduces a character the text does not hold |
| PhpStrings.TrimSurrounded | protected/modules/amfGateway/components/AmfDiscoveryService.php:126 | trim characters around a word with non-trim ends are cut away exactly, leaving the word |
| PhpStrings.TrimPinned | protected/modules/amfGateway/components/AmfDiscoveryService.php:126 | when everything outside a slice is trim characters and its ends are not, `trim` is that slice |
| PhpStrings.TrimClean | protected/modules/amfGateway/components/AmfDiscoveryService.php:126-127 | a word with no trim character at either end is left as it is |
| PhpStrings.LowerCharSpec | protected/modules/amfGateway/components/AmfDiscoveryService.php:124 | a character lowers to a given lower-case letter exactly when it is that letter or its upper-case form; the result is never upper-case, and lowering twice is lowering once |
| PhpStrings.LowerNoUpper | protected/modules/amfGateway/components/AmfDiscoveryService.php:124-129 | `strtolower` keeps the length, leaves no ASCII upper-case letter, and is idempotent |
| PhpStrings.StartsWithNoCaseIff | protected/modules/amfGateway/components/AmfDiscoveryService.php:124 | the lowered prefix equals a lower-case word exactly when each of its characters is the word's letter in lower or upper case |
| PhpStrings.StrPosFrom | protected/modules/amfGateway/components/AmfDiscoveryService.php:77 | the first occurrence at or after a position, or none at all |
| PhpStrings.StrPos | protected/modules/amfGateway/components/AmfDiscoveryService.php:77 | `strpos` is the first occurrence, and it is false exactly when the needle occurs nowhere |
| PhpStrings.ContainsIff | protected/modules/amfGateway/components/AmfDiscoveryService.php:190 | `strpos(...) !== false` holds exactly when the needle occurs somewhere |
| PhpStrings.ContainsInside | protected/modules/amfGateway/components/AmfDiscoveryService.php:190 | a text contains every pattern written inside it |
| DocComment.StripDelimiters | protected/modules/amfGateway/components/AmfDiscoveryService.php:117-119 | after the three replacements no star is left, and the third replacement changes nothing |
| DocComment.Fragments | protected/modules/amfGateway/components/AmfDiscoveryService.php:120 | there is always at least one fragment to loop over |
| DocComment.FragmentsClean | protected/modules/amfGateway/components/AmfDiscoveryService.php:117-120 | no fragment holds an `@` or a star |
| DocComment.ClassifySpec | protected/modules/amfGateway/components/AmfDiscoveryService.php:123-134 | a fragment is a `param` tag exactly when it passes the five-character test, otherwise a `return` tag exactly when it passes the six-character one; a tag carries the second word trimmed as its type, a `param` tag the third word without `$` as its name, and neither holds a space or `$` respectively |
| DocComment.ParamTagIff | protected/modules/amfGateway/components/AmfDiscoveryService.php:124 | the `param` test holds exactly when the fragment has five characters each reading `param` in lower or upper case |
| DocComment.ReturnTagIff | protected/modules/amfGateway/components/AmfDiscoveryService.php:129 | the `return` test holds exactly when the fragment has six characters each reading `return` in lower or upper case |
| DocComment.ClassifyAllConcat | protected/modules/amfGateway/components/AmfDiscoveryService.php:123 | the tags of two runs of fragments are the two runs of tags, one after the other |
| DocComment.ParseMethodComment | protected/modules/amfGateway/components/AmfDiscoveryService.php:115-141 | the loop over the fragments returns the parse of the comment, with a missing comment read as `''` |
| DocComment.TagsExclusive | protected/modules/amfGateway/components/AmfDiscoveryService.php:124-129 | no fragment passes both the `param` test and the `return` test |
| DocComment.ParamsDomain | protected/modules/amfGateway/components/AmfDiscoveryService.php:123-128 | a name has a parameter hint exactly when some `param` fragment names it |
| DocComment.ParamsLastWins | protected/modules/amfGateway/components/AmfDiscoveryService.php:128 | the hint for a name is the type from the last `param` fragment naming it |
| DocComment.ReturnLastWins | protected/modules/amfGateway/components/AmfDiscoveryService.php:129-133 | the return slot stays unset exactly when there is no `return` fragment; otherwise it holds the last one's type |
| DocComment.CommentParams | protected/modules/amfGateway/components/AmfDiscoveryService.php:123-136 | for a whole comment, every name a `param` fragment declares has a hint, with the type from the last `param` fragment naming it |
| DocComment.CommentParamsDomain | protected/modules/amfGateway/components/AmfDiscoveryService.php:123-128 | for a whole comment, a name has a hint exactly when some fragment passes the `param` test and its third word, without `$`, is that name |
| DocComment.ClassifyDeclares | protected/modules/amfGateway/components/AmfDiscoveryService.php:124-128 | a fragment declares a name exactly when it is a `param` fragment whose third word is that name |
| DocComment.NoReturnTagGivesEmpty | protected/modules/amfGateway/components/AmfDiscoveryService.php:137-139 | without a `return` fragment the return type is `''` |
| DocComment.MissingCommentGivesNothing | protected/modules/amfGateway/components/AmfDiscoveryService.php:167-168 | a method with no doc comment gets no hints and the return type `''` |
| DocComment.MissingWordGivesEmpty | protected/modules/amfGateway/components/AmfDiscoveryService.php:125-132 | a tag fragment with no space reads as the type `''` and the name `''` |
| DocComment.ReturnWithoutWordGivesEmpty | protected/modules/amfGateway/components/AmfDiscoveryService.php:129-139 | when the last `return` fragment has no second word, the return type is `''` |
| DocComment.ParamTagByPrefix | protected/modules/amfGateway/components/AmfDiscoveryService.php:124 | a fragment starting with `param` is a `param` tag |
| DocComment.ReturnTagByPrefix | protected/modules/amfGateway/components/AmfDiscoveryService.php:124-129 | a fragment starting with `return` is a `return` tag and not a `param` tag |
| DocComment.TypeFromWords | protected/modules/amfGateway/components/AmfDiscoveryService.php:126-132 | the type is the second space-separated word |
| DocComment.DollarRemoved | protected/modules/amfGateway/components/AmfDiscoveryService.php:127 | removing `$` from `$<name>` gives `<name>` when the name holds no `$` |
| DocComment.NameFromWords | protected/modules/amfGateway/components/AmfDiscoveryService.php:127 | the name is the third word with its `$` removed |
| DocComment.NameFromBareWord | protected/modules/amfGateway/components/AmfDiscoveryService.php:127 | a third word without `$` is the name as it stands |
| DocComment.ParamFragmentShape | protected/modules/amfGateway/components/AmfDiscoveryService.php:124-128 | `param <type> $<name> ...` declares `<name>` with type `<type>` |
| DocComment.ReturnFragmentShape | protected/modules/amfGateway/components/AmfDiscoveryService.php:129-133 | `return <type> ...` names the return type `<type>` |
| DocComment.StripKeepsClosingSlash | protected/modules/amfGateway/components/AmfDiscoveryService.php:117-119 | for a comment without inner stars or slashes, stripping leaves the text followed by the closing slash |
| DocComment.ShortFragmentIsOther | protected/modules/amfGateway/components/AmfDiscoveryService.php:124-129 | a fragment shorter than five characters is neither tag |
| DocComment.ParamThenReturn | protected/modules/amfGateway/components/AmfDiscoveryService.php:115-141 | a one-line comment `@param <t> $<v> @return <r>` parses to return type `<r>` and hints `{<v>: <t>}` |
| DocComment.ReturnBeforeCloseKeepsSlash | protected/modules/amfGateway/components/AmfDiscoveryService.php:117-133 | `@return <r>` directly before the closing delimiter gives the return type `<r>/` |
| DocComment.DoubledSpaceShiftsWords | protected/modules/amfGateway/components/AmfDiscoveryService.php:125-127 | with two spaces after `param` the type reads as `''` and the type's word becomes the name |
| DocComment.LineBreakWords | protected/modules/amfGateway/components/AmfDiscoveryService.php:125 | in `param <t> $<v>` followed by a line break, the line break stays glued to the third word |
| DocComment.NameBeforeBreak | protected/modules/amfGateway/components/AmfDiscoveryService.php:127 | a third word `$<v>` followed by a line break still gives the name `<v>`, because `trim` removes the break |
| DocComment.LineBreakAfterName | protected/modules/amfGateway/components/AmfDiscoveryService.php:124-128 | a `param` fragment whose name ends its line declares that name with its type |
| DocCommentExamples.ParseExample | protected/modules/amfGateway/components/AmfDiscoveryService.php:115-141 | `@param string $x @return bool` gives return `bool` and hints `{x: string}` |
| DocCommentExamples.UpperCaseTags | protected/modules/amfGateway/components/AmfDiscoveryService.php:124-129 | `PARAM` and `Return` pass the case-insensitive tests, and a `return` fragment is not a `param` tag |
| DocCommentExamples.MultiLineExample | protected/modules/amfGateway/components/AmfDiscoveryService.php:125-128 | the fragment `param string $x` ending a line gives the name `x` and the type `string` |
| ServiceLocator.ServiceName | protected/modules/amfGateway/components/AmfDiscoveryService.php:78 | the service name is the file name without its last four characters |
| ServiceLocator.RegistrationKeysConcat | protected/modules/amfGateway/components/AmfDiscoveryService.php:100-102 | the keys of two runs of registrations are the two runs of keys, in order |
| ServiceLocator.RegistrationKeysListed | protected/modules/amfGateway/components/AmfDiscoveryService.php:100-102 | a key is returned exactly when some registration carries it |
| ServiceLocator.SearchFolderForServices | protected/modules/amfGateway/components/AmfDiscoveryService.php:70-86 | the recursive walk returns exactly the names the folder's listing gives under the prefix |
| ServiceLocator.GetServiceNames | protected/modules/amfGateway/components/AmfDiscoveryService.php:94-105 | the two loops return every root folder's names in order, then the registration keys |
| ServiceLocator.ServiceFileNameIff | protected/modules/amfGateway/components/AmfDiscoveryService.php:77 | a name counts exactly when it contains ".php" but does not start with it |
| ServiceLocator.ServiceFileNameLength | protected/modules/amfGateway/components/AmfDiscoveryService.php:77-78 | a counted name has more than the four characters that are cut off |
| ServiceLocator.MatchingEntryYieldsOne | protected/modules/amfGateway/components/AmfDiscoveryService.php:77-79 | a counted entry yields exactly prefix plus name minus four characters, and is never entered even when it is a directory |
| ServiceLocator.HiddenDirectorySkipped | protected/modules/amfGateway/components/AmfDiscoveryService.php:80 | a directory whose name starts with `.` contributes nothing |
| ServiceLocator.UnlistableGivesNothing | protected/modules/amfGateway/components/AmfDiscoveryService.php:72-85 | a folder `scandir` cannot list contributes nothing |
| ServiceLocator.EntriesConcat | protected/modules/amfGateway/components/AmfDiscoveryService.php:75-83 | names come out in listing order: two runs of entries contribute one after the other |
| ServiceLocator.PrependConcat | protected/modules/amfGateway/components/AmfDiscoveryService.php:81 | adding a prefix distributes over concatenation |
| ServiceLocator.EntryPrefixShift | protected/modules/amfGateway/components/AmfDiscoveryService.php:77-81 | an entry under prefix `p + q` gives its names under `q` with `p` in front |
| ServiceLocator.EntriesPrefixShift | protected/modules/amfGateway/components/AmfDiscoveryService.php:75-83 | the same holds for a run of entries |
| ServiceLocator.ListingPrefixShift | protected/modules/amfGateway/components/AmfDiscoveryService.php:70-86 | the same holds for a whole folder, so each recursion level only adds its folder name in front |
| ServiceLocator.UnderSubFolder | protected/modules/amfGateway/components/AmfDiscoveryService.php:78-81 | every name found under a sub-folder starts with that sub-folder's prefix |
| ServiceLocator.FlatFolder | protected/modules/amfGateway/components/AmfDiscoveryService.php:75-79 | in a folder without directories the names are those of the counted files, in listing order |
| ServiceLocator.FoldersConcat | protected/modules/amfGateway/components/AmfDiscoveryService.php:96-98 | root folders contribute one after the other, in configured order |
| ServiceLocator.MissingFolderContributesNothing | protected/modules/amfGateway/components/AmfDiscoveryService.php:96-98 | an unlistable root folder leaves the result as if it were not configured |
| ServiceLocator.ServiceNamesLayout | protected/modules/amfGateway/components/AmfDiscoveryService.php:94-105 | the length is the folder names plus one per registration; the folder names come first, then each registration key in order, with no deduplication |
| ServiceLocator.FoldersCount | protected/modules/amfGateway/components/AmfDiscoveryService.php:96-98 | the number of folder names is the sum over the root folders |
| ServiceLocator.NoSuffixAt | protected/modules/amfGateway/components/AmfDiscoveryService.php:77 | ".php" cannot start where the name has no dot |
| ServiceLocator.PlainServiceFile | protected/modules/amfGateway/components/AmfDiscoveryService.php:77-78 | `base.php` with a dot-free `base` counts and names the service `base` |
| ServiceLocator.DotFreeIsNoService | protected/modules/amfGateway/components/AmfDiscoveryService.php:77 | a name without a dot never counts |
| ServiceLocator.HiddenDotFreeIsNoService | protected/modules/amfGateway/components/AmfDiscoveryService.php:77 | a hidden name with no other dot never counts |
| ServiceLocator.SingleEntry | protected/modules/amfGateway/components/AmfDiscoveryService.php:75-83 | a one-entry folder contributes what its entry does |
| ServiceLocator.FourEntries | protected/modules/amfGateway/components/AmfDiscoveryService.php:75-83 | four entries contribute one after the other |
| ServiceLocator.ServiceFileEntry | protected/modules/amfGateway/components/AmfDiscoveryService.php:77-79 | a file `base.php` contributes prefix plus `base` |
| ServiceLocator.OneFileFolder | protected/modules/amfGateway/components/AmfDiscoveryService.php:80-81 | a visible folder `d` holding `b.php` contributes `d/b` |
| ServiceLocator.WalkExample | protected/modules/amfGateway/components/AmfDiscoveryService.php:70-86 | a folder with `a.php`, a folder `d` holding `b.php`, a hidden folder and another file gives `a`, then `d/b`, depth-first |
| ServiceWalk.ServicesOfTree | protected/modules/amfGateway/components/AmfDiscoveryService.php:70-86 | over a whole tree, a name is returned exactly when some reached service file at any depth has it as its slash-joined path minus four characters; the number of names is the number of reached files, each reported once |
| ServiceWalk.ListingWalk | protected/modules/amfGateway/components/AmfDiscoveryService.php:70-86 | the walk of a folder reports, in order, one name per reached service file location, each location once and each named by its path |
| ServiceWalk.EntryWalk | protected/modules/amfGateway/components/AmfDiscoveryService.php:75-83 | one entry reports its own service file, or the files reached inside it when it is a visible directory that is not itself a service name |
| ServiceWalk.EntriesWalk | protected/modules/amfGateway/components/AmfDiscoveryService.php:75-83 | a run of entries reports the files reached through each entry, one entry after the other |
| ServiceWalk.UnderMembership | protected/modules/amfGateway/components/AmfDiscoveryService.php:80-81 | a location inside a directory is the directory's index in front of a location inside its listing |
| ServiceWalk.NameAtFile | protected/modules/amfGateway/components/AmfDiscoveryService.php:77-78 | a reached service file is named by the sub-folder and its name minus four characters |
| ServiceWalk.NameAtDir | protected/modules/amfGateway/components/AmfDiscoveryService.php:80-81 | a location inside a directory is named under the sub-folder extended by the directory name and a slash |
| Discovery.DescribeMethodParameters | protected/modules/amfGateway/components/AmfDiscoveryService.php:169-181 | the parameter loop returns one descriptor per declared parameter, as `DescribeParameters` gives them |
| Discovery.DescribeServiceObject | protected/modules/amfGateway/components/AmfDiscoveryService.php:153-185 | the method loop, with its `continue` on reserved names, builds the descriptor `DescribeService` gives |
| Discovery.MatchesExcludePath | protected/modules/amfGateway/components/AmfDiscoveryService.php:189-194 | the inner filter loop, with its `break`, answers true exactly when some pattern occurs in the name |
| Discovery.FilterCatalog | protected/modules/amfGateway/components/AmfDiscoveryService.php:187-195 | after the filter pass a service remains exactly when no pattern occurs in its name, and remaining descriptors are unchanged |
| Discovery.Discover | protected/modules/amfGateway/components/AmfDiscoveryService.php:147-197 | discover returns what the build pass over the service names, then the filter pass, gives, or the name whose instantiation failed |
| Discovery.BuildStep | protected/modules/amfGateway/components/AmfDiscoveryService.php:150-185 | one more service name either adds its descriptor to the catalog built so far or stops the build at that name |
| Discovery.BuildStopsAtFailure | protected/modules/amfGateway/components/AmfDiscoveryService.php:150-151 | once a name fails to instantiate, the rest of the names do not change the outcome |
| Discovery.BuildCatalogSpec | protected/modules/amfGateway/components/AmfDiscoveryService.php:150-186 | the build fails exactly when some name cannot be instantiated, and reports the first such name; otherwise the keys are exactly the service names and each value describes that name's object |
| Discovery.LastBuildWins | protected/modules/amfGateway/components/AmfDiscoveryService.php:185 | a name built again overwrites its earlier entry with the later descriptor |
| Discovery.MethodsOfSpec | protected/modules/amfGateway/components/AmfDiscoveryService.php:156-183 | a method is listed exactly when some public method has that name and it does not start with `_`; each descriptor carries its own name |
| Discovery.MethodsOfLastWins | protected/modules/amfGateway/components/AmfDiscoveryService.php:182 | the descriptor listed under a name describes the last public method with that name |
| Discovery.RoleHookNeverListed | protected/modules/amfGateway/components/AmfDiscoveryService.php:159-162 | `_getMethodRoles` never appears among a service's methods |
| Discovery.DescribeParametersSpec | protected/modules/amfGateway/components/AmfDiscoveryService.php:169-181 | the parameters keep the declared length, order and names; each type is the declared class, else the comment's hint for exactly that name, else `''` |
| Discovery.FilteredSpec | protected/modules/amfGateway/components/AmfDiscoveryService.php:187-195 | a service survives the filter exactly when no pattern occurs in its name, and it survives unchanged |
| Discovery.DefaultExcludesItself | protected/modules/amfGateway/components/AmfDiscoveryService.php:31 | with the default patterns, any name holding `AmfDiscoveryService` is excluded |
| Discovery.PatternIsSubstring | protected/modules/amfGateway/components/AmfDiscoveryService.php:189-191 | a pattern excludes every name it occurs in, not only equal names |
| Discovery.FilterComesLast | protected/modules/amfGateway/components/AmfDiscoveryService.php:187 | the patterns change nothing about the build: discover is discover without patterns, then filtered |
| Discovery.SameBuild | protected/modules/amfGateway/components/AmfDiscoveryService.php:150-186 | the build pass reads only the folder paths and registrations |
| Discovery.ExcludedFailureStillAborts | protected/modules/amfGateway/components/AmfDiscoveryService.php:151-195 | a service that fails to instantiate aborts discover even when its name would be filtered out |
| Discovery.DiscoverSpec | protected/modules/amfGateway/components/AmfDiscoveryService.php:147-197 | the discovered services are exactly the found names no pattern excludes, each described from its instantiated object |
| Discovery.RolesIgnoreMethod | protected/modules/amfGateway/components/AmfDiscoveryService.php:56-61 | the roles do not depend on the method name |
| Discovery.RolesIffRestricted | protected/modules/amfGateway/components/AmfDiscoveryService.php:56-61 | the roles are `['amfphp_admin']` exactly when access is restricted and `[]` otherwise; the default requires none |

## Left out

- `setConfiguration` (Yii path aliases, registering the class with the Zend AMF server) is framework wiring. The model takes the static fields as a `Config` value instead; nothing in the model writes them.
- `scandir` and `is_dir` are replaced by the directory tree. How `$rootPath . $subFolder` strings resolve to folders, and whether a root path lacks a trailing slash, is not modelled: the tree gives each folder's listing directly.
- PHP reflection (`ReflectionObject`, `getDocComment`, `getMethods`, `getParameters`, `getClass`) is not modelled; its results are the input records. `ServiceRouter::getServiceObjectStatically` is `Instantiator`.
- Discovery.Discover: an instantiation failure is a returned `InstantiationFailed` value. The model does not capture an exception propagating out of the call.
- Discovery.BuildCatalogSpec: because `Instantiator` is a function, the same name always gives the same object. So a duplicate name overwrites its entry with an equal descriptor. `LastBuildWins` states the overwrite itself.
- The descriptor classes are plain datatypes holding their constructor arguments.
- PHP arrays are ordered maps. The model uses a Dafny `map` for `$params`, `$methods` and `$ret`, so their key order is not modelled. Only the order-free content is proved.
- `$serviceNames2ClassFindInfo` is a sequence of registrations; the uniqueness of PHP array keys is not imposed.
- PHP's conversion of numeric-string array keys to integers is not modelled. Nor is the notice PHP emits when `$words[1]` or `$words[2]` is missing; that slot reads as `''`.
- Discovery.IsExcluded: `strpos` follows PHP 8, where an empty pattern is found at 0, so an empty exclude pattern excludes every service. Earlier PHP versions warned and returned false.
- A Dafny `char` stands for one PHP byte. Multi-byte (UTF-8) file and service names are not modelled as such: ServiceLocator.ServiceName cuts four characters where `substr` on line 78 cuts four bytes, which agree only while the suffix is ASCII, as ".php" is.
- Reflection failures are not modelled. Discovery.ReflectedParameter records the declared class as given: the model does not capture `getClass()` throwing a `ReflectionException` when the hinted class cannot be loaded (lines 173-174). Nor does it capture that loading a class can depend on services instantiated earlier in the same call, which is why the code filters only after building everything (line 187).
- PhpStrings.LowerChar and PhpStrings.Lower: `strtolower` is ASCII-only, as in PHP 8.2 and later. Locale-dependent lowering is not modelled.
- AMF wire encoding and transport are not part of this model, nor is the Yii `ContactForm` model in the same repository.
