# Bundle-By-Cli: the bundling pipeline in Dafny

Bundle-By-Cli is a command-line tool. It concatenates the source files of one
programming language from the current directory into one output file. It can
add an author banner, add a path banner before each file, remove blank lines
and order the files by extension instead of alphabetically. A second command,
`create-rsp`, writes a response file so that the same bundle invocation can be
replayed.

This project models the pure bundling pipeline inside `Program.cs`:

- `Languages`: the language registry. The class `LanguageTable` holds the
  dictionary that `initProgrammingLanguages` fills through seven `Add` calls.
  `GetSearchPatternsByLanguage` looks a key up and fails for an unregistered
  key.
- `Paths`: `Path.GetExtension`. It returns the suffix from the last dot of the
  last path segment, or "" when there is none or the dot is the last
  character.
- `Text`: the string order used to compare paths and extensions. Also the
  split / drop-empty / join pipeline that removes blank lines, with the
  newline string as a parameter.
- `Ordering`: the alphabetical order, which returns a new sequence. Also the
  in-place sort of an `array` by extension.
- `Bundler`: `BundleFilesByLanguage` and the loop that assembles the output
  lines. The directory listing is a function from glob pattern to paths.
  The file reads are a map from path to text. The final write is the
  returned sequence of lines.
- `ResponseFile`: the text of the response file.
- `Results`: the two failure kinds (unsupported language, unreadable file) and
  a result type that carries them instead of exceptions.

Two points about what the program promises:

- `Array.Sort` is not stable, so the sort by extension promises only that the
  extensions are non-decreasing and that the result is a permutation.
- `SelectMany` keeps a file that two patterns both list, so such a file is
  bundled twice (`Bundler.MatchesAppend`).

## Model

| member | source | states |
|---|---|---|
| Languages.StandardLanguages | Program.cs:15-22 | The seven-entry registry: "C#", "Java", "Python", "C++", "Html", "JavaScript" and "all", each with its glob patterns in registration order; `InitProgrammingLanguages` is proved to build exactly this map |
| Languages.LanguageTable.InitProgrammingLanguages | Program.cs:13-23 | After initialisation the dictionary is exactly the seven-entry registry; no key is added twice, so none of the `Add` calls can throw |
| Languages.LanguageTable.Add | Program.cs:16-22 | Registering a key that is absent adds exactly that key with its pattern list and changes no other entry |
| Languages.GetSearchPatternsByLanguage | Program.cs:145-151 | The registered pattern list of the key, or the unsupported-language error naming the key when it is not registered; characterised over all keys by `LookupStandard` and `LookupIsExact` |
| Languages.LookupStandard | Program.cs:145-151 | Each of the seven keys yields its patterns in registration order ("C++" gives `*.cpp`, `*.h`; "all" gives `*.*`); every other key yields the unsupported-language error naming that key |
| Languages.LookupIsExact | Program.cs:147-150 | Lookup is case-sensitive and exact: "c#", "python", "ALL", "C" and "Java " are all unsupported |
| Paths.Extension | Program.cs:158 | `Path.GetExtension`: a backward scan from the end of the path that stops at the first dot or separator it meets; the suffix from that dot, or "" when the scan meets a separator or the start of the path, or when the dot is the last character; characterised by `ExtensionSpec` and `ExtensionAt` |
| Paths.ExtensionSpec | Program.cs:158 | The extension is either "" or a dot followed by a non-empty tail with no dot and no separator that ends the path; it is "" exactly when no dot in the path is followed by such a tail |
| Paths.ExtensionAt | Program.cs:158 | A dot followed by a non-empty plain tail is where the extension starts |
| Text.Le | Program.cs:154-158 | The string order used to compare paths and extensions: ordinal, character by character, a proper prefix first; `LeTotal`, `LeAntisymmetric` and `LeTransitive` prove it a total order |
| Text.LeTotal | Program.cs:154 | Any two strings are comparable under the string order |
| Text.LeAntisymmetric | Program.cs:154 | Two strings that each sort no later than the other are equal |
| Text.LeTransitive | Program.cs:154 | The string order is transitive |
| Ordering.SortTheFileAlph | Program.cs:152-155 | The result is non-decreasing under the string order and is a permutation of the input (same multiset, duplicates kept) |
| Ordering.SortedUnique | Program.cs:152-155 | Two sorted sequences with the same elements are equal, so the alphabetical order is fully determined |
| Ordering.SortTheFileAlphDeterministic | Program.cs:152-155 | Under the ordinal order, the same set of files listed in any order gives the same alphabetical order, so an unchanged directory gives the same bundle every time |
| Ordering.SortTheFileAlphOfSorted | Program.cs:152-155 | Input that is already in order is returned unchanged |
| Ordering.SortTheFileByTypeOfCode | Program.cs:156-159 | The array is rearranged in place into a permutation of its old contents whose extensions are non-decreasing |
| Ordering.SameExtensionContiguous | Program.cs:156-159 | After the sort by extension, files sharing an extension sit next to each other |
| Ordering.ExtensionOrderLeavesTiesOpen | Program.cs:156-159 | For `b.py`, `a.cpp`, `c.py` the ".cpp" file goes first, and both orders of the two ".py" files satisfy the contract: the unstable sort promises no order among equal extensions |
| Text.Split | Program.cs:138 | Splitting on the newline string always yields at least one piece |
| Text.DropEmpty | Program.cs:138 | Removing empty entries keeps only non-empty pieces and leaves a list with no empty piece unchanged |
| Text.DropEmptyMembers | Program.cs:138 | A piece survives removal of empty entries exactly when it is non-empty |
| Text.Join | Program.cs:138 | `string.Join`: the pieces with the newline string between neighbours; `JoinSplit` and `SplitJoin` make it the inverse of `Split` |
| Text.StripEmptyLines | Program.cs:138 | The blank-line stripper: split on the newline string, drop zero-length pieces, join again; characterised by the `Strip…` lemmas below |
| Text.JoinSplit | Program.cs:138 | Joining the pieces of a split with the same newline string gives back the original text |
| Text.SplitPiecesFree | Program.cs:138 | No piece of a split contains the newline string |
| Text.SplitPiecesSeparable | Program.cs:138 | For any newline string, no occurrence of it starts inside a piece of a split, not even one running on into the newline string after that piece |
| Text.DropEmptySeparable | Program.cs:138 | Removing empty entries keeps that property, since a surviving piece that is not last was not last before |
| Text.SplitJoinSeparable | Program.cs:138 | Splitting the join of pieces with that property gives the pieces back |
| Text.SplitJoin | Program.cs:138 | Splitting the join of pieces that do not contain a borderless newline string gives the pieces back |
| Text.BorderedNewlineBreaksSplitJoin | Program.cs:138 | With the self-overlapping newline string "aa", the free pieces "a" and "b" join to "aaab", which splits into "" and "ab"; `SplitJoin` needs its borderless condition |
| Text.PlatformNewlinesBorderless | Program.cs:138 | "\n" and "\r\n" are borderless, so `SplitJoin` and the response-file split hold for both platform newlines |
| Text.StripSplitsIntoNonEmptyLines | Program.cs:136-139 | For any newline string, the stripped text splits into exactly the non-empty lines of the original, in order; with none, the stripped text is "" |
| Text.StripLeavesNoEmptyLine | Program.cs:138 | For any newline string, a non-empty stripped text has no zero-length line when split on the newline string |
| Text.StripIdempotent | Program.cs:138 | For any newline string, stripping blank lines twice gives the same text as stripping once |
| Text.StripKeepsTextWithoutEmptyLines | Program.cs:138 | A text with no zero-length line is left unchanged by stripping |
| Text.StripKeepsNonEmptyLines | Program.cs:138 | A line of non-zero length, including one holding only blanks, appears after stripping exactly when it appears before; only zero-length lines are removed |
| Bundler.Matches | Program.cs:119-121 | `SelectMany` over the patterns: the listing of each pattern in turn, concatenated; characterised by `MatchesMembers` and `MatchesAppend` |
| Bundler.AuthorBanner | Program.cs:129-130 | The author line `//---------author: <author> -----------`, written first when the author is non-empty |
| Bundler.NoteBanner | Program.cs:134-135 | The path line `//--------------<path>----------------`, written before a file's text when `note` is set |
| Bundler.Content | Program.cs:136-140 | A file's text as written: stripped of blank lines when `removeEmptyLines` is set, verbatim otherwise |
| Bundler.BundleLines | Program.cs:128-141 | All output lines: the author banner when given, then for each file in order its path banner when `note` is set and its content; `AssembleBundle` is proved to compute it, and `BundleLength` and `BundleEntries` fix every position |
| Bundler.BundleFilesByLanguage | Program.cs:115-144 | An unregistered language fails with the unsupported-language error before any file is taken; otherwise the files taken are a permutation of all pattern matches, sorted by extension when `sort` is set and the alphabetical order otherwise; the first unreadable file fails the whole request, and with every file readable the result is the bundle of those files |
| Bundler.AssembleBundle | Program.cs:128-141 | The loop yields the bundle lines of the ordered files, or the read error of the first file that cannot be read, with no partial output |
| Bundler.FirstUnreadable | Program.cs:131-133 | Finds the first file missing from the readable files; every earlier file is readable |
| Bundler.BundleLength | Program.cs:128-141 | The output has (author non-empty ? 1 : 0) + n × (note ? 2 : 1) lines for n files |
| Bundler.BundleEntries | Program.cs:129-140 | The author banner is line 0 when an author is given; file i's content, verbatim or stripped when `removeEmptyLines` is set, is at line h + i·w + w − 1, right after its path banner when `note` is set |
| Bundler.SingleFileRoundTrip | Program.cs:128-142 | One file without note, stripping or author gives exactly that file's text as the only line |
| Bundler.TwoFileScenario | Program.cs:128-141 | Files `x.cs` ("class X{}") and `y.cs` ("") with notes and author "Dana" give the author banner, then path banner and content for each file in turn |
| Bundler.MatchesMembers | Program.cs:119-121 | A file is taken exactly when some pattern of the language lists it |
| Bundler.MatchesAppend | Program.cs:119-121 | Listing the patterns one after another concatenates their listings, so a file matched twice is taken twice |
| ResponseFile.RspLines | Program.cs:100-105 | The six response-file lines in order, with booleans written "True"/"False" as `bool.ToString` does |
| ResponseFile.RspContent | Program.cs:100-105 | The response-file text: each of the six lines followed by the newline string; `RspSplitsIntoLines` shows that splitting it gives the lines back |
| ResponseFile.TerminatedIsJoin | Program.cs:100-105 | Ending each line with the newline string is the same as joining the lines with it plus one final empty piece |
| ResponseFile.RspSplitsIntoLines | Program.cs:100-105 | Split on the newline string, the response text gives back the six lines (`bundle --output …`, then `--language`, `--note`, `--remove`, `--sort`, `--author`) and an empty piece after the last newline, provided no value contains the newline string |

## Left out

- Command-line option and alias registration, the `bundle` and `create-rsp` handler wiring and `Main` (Program.cs:24-66, 112-113). This is library glue.
- The interactive prompts of `create-rsp` and the `bool.Parse` of what the user types (Program.cs:69-99). This is console I/O; the response text takes the six final values as parameters.
- Writing `response.rsp` and the console messages (Program.cs:106-110, 143). These are I/O.
- `Directory.GetFiles` and the current directory (Program.cs:120). The glob semantics belong to the library, so the listing for each pattern is an input function. Whether `*.*` matches a name without a dot is therefore decided by that input. The listing function is total, so a listing that throws is not modelled.
- `File.ReadAllText` (Program.cs:133). It is a map from path to text; a path not in the map is the read failure. I/O errors are not told apart by kind.
- `File.WriteAllLines` (Program.cs:142). A write failure is not modelled. The bundle is the returned sequence of lines; the line terminators the write adds after each entry are not modelled.
- `FileInfo.FullName` and `Path.Combine` on the output path (Program.cs:49, 127). These are library path normalisation, and the output path plays no part in the lines.
- Culture-sensitive string comparison in the alphabetical order and in `CompareTo` of extensions. It is replaced by an ordinal, character-code lexicographic order (`Text.Le`), proved to be a total order. The culture comparer can rank two distinct strings equal, for example strings that differ only in an ignorable code point, and the stable `OrderBy` then keeps their listing order. So Ordering.SortedUnique and Ordering.SortTheFileAlphDeterministic hold only for the ordinal order. Ordering.SameExtensionContiguous does too: under `CompareTo`, two distinct extensions can compare equal, and a sorted result can then interleave them.
- `Environment.NewLine`. It is a parameter of type `Newline` (any non-empty string).
- Ordering.SortTheFileByTypeOfCode: the model sorts by insertion. The exact arrangement that `Array.Sort`'s introspective sort gives to files with equal extensions is not modelled. The contract promises only sortedness and permutation, which is what the code guarantees.
- Paths.ExtensionSpec: directory separators are taken to be '/' and '\\' (the Windows convention). On Unix .NET treats only '/' as a separator.
- `Dictionary.Add` throws on a repeated key. This is a precondition of `LanguageTable.Add`, and every call in the initialisation meets it.
- The `--output` value in the response text is the path string as given. `FileInfo.ToString` is not modelled further.
- The registry is passed to `BundleFilesByLanguage` as a map value instead of being read from a static field.
