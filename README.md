# GoogleGasScraper helper functions in Dafny

This project models the parts of `helpfuncs.py` in GoogleGasScraper that do not touch the browser:

- `GasPriceChecker.parse_prices` turns the price text from a station's side bar into a `GasPrices` record.
- `get_latlong` pulls the latitude and longitude text out of a Google Maps place URL.
- `make_nested_folders`, `create_csv` and `make_file_structure` lay out the `fuel_prices/<zipcode>/` folder with its four fuel csv files and its gas-station list.

The Python string built-ins these routines use are modelled on `seq<char>` in `PyStrings`:

- `str.split()` with no argument;
- `str.split(sep)`;
- `str.strip(c)`.

`PyStrings` also defines `Join`, Python's `sep.join`. The source never calls it; it serves only to state two round-trip laws:

- `JoinSplit`: `sep.join(s.split(sep)) == s`;
- `WordsOfJoin`: `str.split()` gives back non-empty, whitespace-free words joined by one whitespace character.

The opposite direction does not hold for `split(sep)` in general (`SplitJoinNotInverse`). Joining `["a", "b"]` with `"aa"` gives `"aaab"`, and splitting that on `"aa"` gives `["", "ab"]`.

Further laws are proved there as well:

- no piece of `split(sep)` contains the separator, and each piece ends at the first separator after its start;
- whitespace splitting loses only the whitespace, and a whitespace character always separates words.

The file system is a value, `FileTree.FsState`: a set of directory paths and a map from file paths to contents. The os calls are functions from one state to the next state plus an outcome:

- `os.mkdir`;
- `open(p, 'w')`;
- `open(p, 'a')`.

An exception the source would raise is a `Fail` outcome. It ends the routine with everything done before it kept, as an uncaught exception would. Each routine is defined as a function on the state. Its effect, success condition and idempotence are proved about that function.

`FileSystemImpl.FileSystem` is the same file system as an object whose `dirs` and `files` fields the methods update in place. Each method follows the source's loop and is proved to reach exactly the state and outcome the function gives:

- the `for folder in folder_list` loop of `make_nested_folders`;
- the loop over the four fuel types in `make_file_structure`.

Modules:

- `Wrappers`: `Option`, `Result`, `Outcome`.
- `PyStrings`: the Python string operations.
- `Prices`: `parse_prices` and `GasPrices`.
- `GeoUrl`: `get_latlong`.
- `FileTree`: the file-system state, the os calls and the three folder routines as functions. As in the source, `fp` defaults to `fuel_prices` (`FileTree.DefaultFp`).
- `FileSystemImpl`: the in-place file-system object and its methods.

Price parsing works on the whitespace-separated tokens of the side-bar text:

- every token that holds a `$` or a `-` anywhere is kept, in order;
- `$` is stripped from both ends of each kept token;
- the list goes to the four-parameter `GasPrices` constructor, so any count other than exactly four fails, more as well as fewer;
- the failure `WrongArity` carries the number of tokens that were kept.

## Model

| member | source | states |
|---|---|---|
| PyStrings.Words | helpfuncs.py:161 | `str.split()`: every piece is non-empty and holds no whitespace |
| PyStrings.WordsOfWord | helpfuncs.py:161 | a non-empty run without whitespace splits into exactly itself |
| PyStrings.WordsAtSpace | helpfuncs.py:161 | a whitespace character always separates words: the words of `a + c + b` are those of `a`, then those of `b`, whatever runs of leading, trailing or repeated whitespace they hold; with `WordsOfWord` this determines `str.split()` on every text |
| PyStrings.WordsKeepText | helpfuncs.py:161 | the pieces of `str.split()`, concatenated, are the text with its whitespace removed: no character is lost, reordered or added |
| PyStrings.WordsOfJoin | helpfuncs.py:161 | splitting words joined by a whitespace character gives back exactly those words |
| PyStrings.Strip | helpfuncs.py:161 | `str.strip(c)` leaves no `c` at either end, and its result is the input with the leading and trailing runs of `c` removed |
| PyStrings.StripKeepsOthers | helpfuncs.py:161 | stripping `c` neither removes nor adds any other character |
| PyStrings.FindFrom | helpfuncs.py:28 | the search used by `str.split(sep)` returns the first occurrence at or after the start, or none when there is none |
| PyStrings.FindIff | helpfuncs.py:28 | a search finds something exactly when the separator occurs in the string |
| PyStrings.PieceEndFrom | helpfuncs.py:28 | a piece ends at the first separator after its start, or at the end of the string |
| PyStrings.SplitCount | helpfuncs.py:28 | `str.split(sep)` gives at least two pieces exactly when the string contains `sep` |
| PyStrings.SplitPiecesFree | helpfuncs.py:28 | no piece of `str.split(sep)` contains `sep` |
| PyStrings.FirstPiece | helpfuncs.py:28 | the first piece is the text up to the first separator, or the whole string when there is none: no occurrence of the separator starts inside it, even one that overlaps its end |
| PyStrings.FirstPieceBefore | helpfuncs.py:28 | when the separator occurs, the first piece is exactly the text before its first occurrence |
| PyStrings.SecondPiece | helpfuncs.py:28 | the second piece, `split(sep)[1]`, starts right after the first separator and runs to the next one or to the end: no occurrence of the separator starts inside it |
| PyStrings.FirstTwoPieces | helpfuncs.py:28 | the string starts with the first piece, the separator and the second piece |
| PyStrings.SecondPieceCut | helpfuncs.py:28 | `s.split(sep)[1].split(cut)[0]` starts right after the first `sep`, holds neither `sep` nor `cut`, and runs to the end, a `sep` or a `cut` |
| PyStrings.SplitOnChar | helpfuncs.py:28 | splitting `a + c + b + rest` on `c`, with `a` and `b` free of `c` and `rest` empty or led by `c`, gives `a` and `b` as the first two pieces |
| PyStrings.JoinSplit | helpfuncs.py:28 | `sep.join(s.split(sep)) == s` for every string and non-empty separator |
| Prices.KeepAppend | helpfuncs.py:161 | the comprehension keeps the tokens' order: filtering `a + b` is filtering `a`, then `b` |
| Prices.KeepMembers | helpfuncs.py:161 | a string is in the price list exactly when some token holding `$` or `-` strips to it |
| Prices.KeepLength | helpfuncs.py:161 | the price list has exactly one entry per token that holds `$` or `-` |
| Prices.PriceTokensStripped | helpfuncs.py:161 | no price string has a `$` at either end |
| Prices.LabelIgnored | helpfuncs.py:161 | a token with neither `$` nor `-` contributes nothing, wherever it stands |
| Prices.ParsePricesArity | helpfuncs.py:140-144 | a record comes out exactly when four tokens qualify; its diesel, regular, midgrade and premium are the kept tokens in order; otherwise the failure reports how many were kept |
| Prices.ParseListing | helpfuncs.py:157-162 | for text made of grade labels each followed by its `$` price, parsing gives back exactly those prices, in order, when there are four, and reports the count otherwise |
| GeoUrl.MissingMarkerIff | helpfuncs.py:28 | the `split('/@')[1]` failure happens exactly when the URL holds no `/@` |
| GeoUrl.TooFewFieldsIff | helpfuncs.py:28 | the two-name unpack fails exactly when the marker is present but its segment holds no `,` |
| GeoUrl.SegmentPlace | helpfuncs.py:28 | the segment starts right after the first `/@`, holds neither `/@` nor `/data=!`, and ends at the URL's end, a `/@` or a `/data=!` |
| GeoUrl.FieldsOnSuccess | helpfuncs.py:25-29 | on success, latitude and longitude hold no `,`, and the segment starts with latitude, `,`, longitude, followed by nothing or a `,` |
| GeoUrl.LatLongOfSegment | helpfuncs.py:25-29 | conversely, a segment of that shape yields exactly its latitude and longitude |
| FileTree.Mkdir | helpfuncs.py:64 | `os.mkdir(p)` succeeds exactly when `p` is neither a directory nor a file and its parent is a directory; it then adds `p` as a directory and nothing else; on failure nothing changes; it keeps the file system well-formed |
| FileTree.OpenWrite | helpfuncs.py:84 | `open(p, 'w')` succeeds exactly when `p` is not a directory and its parent is; it then makes `p` an empty file and changes nothing else; on failure nothing changes |
| FileTree.OpenAppend | helpfuncs.py:109 | `open(p, 'a')` succeeds under the same condition; it keeps every file's contents and adds only `p`, empty when it is new; on failure nothing changes |
| FileTree.FirstFileFrom | helpfuncs.py:50-65 | the first prefix of the path, from a given length on, that is a file |
| FileTree.WalkEffect | helpfuncs.py:50-65 | from any pass of the loop on, the rest of the loop creates exactly the missing prefixes up to the first one that is a file, and stops there with FileExistsError |
| FileTree.NestedFoldersEffect | helpfuncs.py:31-65 | `make_nested_folders` keeps every file and directory and adds exactly the missing prefixes before the first file prefix; it can never fail for a missing parent |
| FileTree.NestedFoldersPass | helpfuncs.py:31-65 | `make_nested_folders` succeeds exactly when no prefix of the path is a file, and then every prefix is a directory |
| FileTree.NestedFoldersIdempotent | helpfuncs.py:31-65 | running `make_nested_folders` again after it succeeded changes nothing, since existing directories are skipped |
| FileTree.CreateCsvEffect | helpfuncs.py:67-89 | `create_csv` never truncates an existing file; it adds at most the requested file, empty, and only prefixes of the directory; it succeeds exactly when no prefix of the directory is a file and the file path is not a directory, and then both exist |
| FileTree.CreateCsvIdempotent | helpfuncs.py:67-89 | calling `create_csv` a second time changes nothing |
| FileTree.CreateAllEffect | helpfuncs.py:105-106 | the `create_csv` calls in sequence keep every file; they succeed exactly when no prefix of the folder is a file and no csv path is a directory, and then every csv file exists |
| FileTree.CsvNames | helpfuncs.py:105-106 | the file name of each fuel type, in order |
| FileTree.CreateAllAdds | helpfuncs.py:105-106 | the `create_csv` calls in sequence create no file but the requested csv files, and each one they create is empty |
| FileTree.MakeFileStructureEffect | helpfuncs.py:91-109 | `make_file_structure` keeps every file; it adds only prefixes of `fp/zipcode` as directories and only the four csv files and the gas-station list as files, each new one empty; it succeeds exactly when no prefix of `fp/zipcode` is a file and none of the five file paths is a directory, and then the zip-code folder, the four fuel csv files and the gas-station list exist |
| FileTree.MakeFileStructureIdempotent | helpfuncs.py:91-109 | calling `make_file_structure` a second time changes nothing |
| FileSystemImpl.FileSystem.Mkdir | helpfuncs.py:64 | the in-place `os.mkdir` reaches the state and outcome of `FileTree.Mkdir` |
| FileSystemImpl.FileSystem.OpenWrite | helpfuncs.py:84 | the in-place `open(p, 'w')` reaches the state and outcome of `FileTree.OpenWrite` |
| FileSystemImpl.FileSystem.OpenAppend | helpfuncs.py:109 | the in-place `open(p, 'a')` reaches the state and outcome of `FileTree.OpenAppend` |
| FileSystemImpl.FileSystem.MakeNestedFolders | helpfuncs.py:46-65 | the loop over the folders ends in the state and outcome of `FileTree.MakeNestedFolders`; it only adds directories and leaves files alone; on success, with a working directory, every prefix is a directory |
| FileSystemImpl.FileSystem.CreateCsv | helpfuncs.py:78-89 | the in-place `create_csv` reaches the state and outcome of `FileTree.CreateCsv` |
| FileSystemImpl.FileSystem.MakeFileStructure | helpfuncs.py:103-109 | the loop over the four fuel types, then the gas-station file, reaches the state and outcome of `FileTree.MakeFileStructure` |

## Left out

- `GasPriceChecker.check` is not modelled. It drives a Selenium browser: page loads, XPath look-ups, waits and timeouts.
- The `GasPriceChecker` constructor is not modelled. It stores the url, the xpath dictionary and the driver path, and reads the address file through `read_addresses`.
- `read_addresses` is not modelled. It reads a text file.
- `main.py` is not part of this model.
- `GeoInfo`'s `float(x)` and `float(y)` conversions are left out. The model returns the two extracted strings, so a malformed number's ValueError is not modelled.
- `GasPrices.timestamp` comes from the clock and is left out.
- Printed messages (`print(...)`) are left out. They do not affect the state.
- `populate_gas_stations` is left out. Its body is only `pass`.
- Path strings are not modelled: a path is already the sequence of its folder names. `os.path.normpath`, `os.sep`, `os.path.join` and the hard-coded `"\\"` separator in `make_nested_folders` are therefore left out.
  - The model follows Windows in taking `"\\"` as the separator.
  - Folder and file names are compared exactly. Windows, and macOS by default, compare them ignoring case: with a directory `A`, the source's `os.path.isdir("a")` is true there and `make_nested_folders("a\\b")` creates only `A\b`, where the model creates `a` and `a/b`.
  - On POSIX, `"\\"` is an ordinary character. For `a/b/c` the source creates `a`, then the top-level folders `a\b` and `a\b\c`, whose names contain backslashes. The later `open` in `create_csv` then raises FileNotFoundError, because `a/b` does not exist. The model does not capture this.
  - `normpath('')` is `'.'`, so the source checks the working directory itself. The model represents that as the empty path, which always exists.
- The guard in `make_nested_folders` is left out. `len(path) < 0` can never hold, and `isinstance(path, str)` is a type check that Dafny's types already settle.
- Files are modelled only as present or absent with their contents. `create_csv` opens with `newline=''` and writes nothing, so a new file is empty. Contents of existing files are kept but never written.
  - The comment at helpfuncs.py:102 says the csv files are created with headers, but the code writes none (lines 84-85). The model follows the code: a new csv file is `""`.
- Only the exceptions these routines can meet on a well-formed file system are modelled: FileExistsError, FileNotFoundError and opening a directory. The last is named `IsADirectory` after POSIX's IsADirectoryError; Windows raises PermissionError there. The model tells failures apart by their cause, not by the exception class. Permissions, disk space and concurrent changes by other processes are left out.
