# goutils helpers in Dafny

A verified model of the self-contained core of the goutils Go helper library:

- **Pointers** (`pointers.dfy`, for `pointer.go`): the optional-value helpers. A Go pointer `*T` is an `Option<T>`. Go's zero value of `T` is passed in explicitly as `zero`.
- **Numbers** (`numbers.dfy`, for `number.go`): `Abs`, `Min` and `Max` instantiated at unbounded integers. `Min` and `Max` are loops over the arguments, proved against the left folds `Least` and `Greatest`.
- **Strings** (`strings.dfy`, for `string.go`):
  - The regular-expression extractors are filters by a character class (`Keep`).
  - `Slugify` and `SlugifyPersian` are such a filter followed by `CollapseRuns`. `CollapseRuns` turns every maximal run of `[\s\-]` into one dash.
  - `Concat` is a loop that keeps the non-blank parts and joins them.
  - `RandomString` fills an array from a character set. The random source's draws are a parameter.
- **Files** (`files.dfy`, for `file.go`):
  - `GetFilename` and `GetExtension`, over models of Go's `filepath.Ext` and `filepath.Base` on '/'-separated paths.
  - The three-way classification of `FileExists`.
  - `TimestampedFile`, with the clock reading as a parameter.
  - `NumberedFile`. This is a method with a loop over the counters 1 to `MaxUint32 - 1`. It probes an existence oracle `stat`, which stands for `os.Stat` on `NormalizePath(dir, name)`. The method is proved equal to the specification functions `Allocate` (its outcome) and `Probes` (the names it asks about). Lemmas then state what those two promise: the least free name is returned, errors are returned on the spot, the counter range is exhausted exactly when every name exists, and nothing is probed twice.

## Model

| member | source | states |
|---|---|---|
| Pointers.PointerOf | pointer.go:4-6 | The result is never nil and refers to the given value |
| Pointers.SafeValue | pointer.go:9-16 | The zero value for nil, otherwise the referenced value |
| Pointers.ValueOf | pointer.go:19-25 | The fallback for nil, otherwise the referenced value |
| Pointers.Alter | pointer.go:28-35 | The fallback when the reference is nil or holds the zero value, otherwise the referenced value |
| Pointers.NullableOf | pointer.go:38-44 | Nil exactly when the reference is empty (nil or zero), otherwise the same reference unchanged |
| Pointers.IsEmpty | pointer.go:47-50 | Empty exactly when SafeValue reads the zero value; IsEmptyCases spells out its cases |
| Pointers.IsSame | pointer.go:53-61 | Holds exactly when the two optional values are equal; IsSameIsValueEquality adds the case table and the equivalence laws |
| Pointers.SafeValueOfPointer | pointer.go:4-25 | Reading back a fresh pointer through SafeValue or ValueOf gives the original value |
| Pointers.IsEmptyCases | pointer.go:47-50 | Nil and a reference to zero are empty; a reference to any other value is not |
| Pointers.AlterIsValueOfNullable | pointer.go:28-44 | Alter equals ValueOf applied to NullableOf, for every reference and fallback |
| Pointers.NullableOfIdempotent | pointer.go:38-44 | NullableOf is idempotent, and a non-nil result is never empty |
| Pointers.IsSameIsValueEquality | pointer.go:53-61 | IsSame holds exactly when both are nil or both refer to equal values; over types whose equality is an equivalence it is reflexive, symmetric and transitive, and nil differs from any non-nil reference |
| Numbers.Abs | number.go:10-16 | The result is non-negative and is either x or -x |
| Numbers.AbsIdempotentAndEven | number.go:10-16 | Abs(Abs(x)) == Abs(x), Abs(-x) == Abs(x), and Abs(-5) == Abs(5) == 5 |
| Numbers.Least | number.go:40-46 | The running minimum of a non-empty sequence is one of its elements and at most every element |
| Numbers.Greatest | number.go:56-62 | The running maximum of a non-empty sequence is one of its elements and at least every element |
| Numbers.Min | number.go:34-47 | 0 for no arguments; otherwise the fold Least of the arguments, an argument that is at most every argument |
| Numbers.Max | number.go:50-63 | 0 for no arguments; otherwise the fold Greatest of the arguments, an argument that is at least every argument |
| Numbers.LeastAtMostGreatest | number.go:34-63 | On the same non-empty input the minimum never exceeds the maximum |
| Numbers.LeastIsUnique | number.go:34-47 | Any element that bounds all others from below is the minimum, so membership and the bound determine Min's result |
| Numbers.MinMaxExample | number_test.go:88-132 | Min(5, 3, 9) is 3 and Max(5, 3, 9) is 9 |
| Strings.ExtractNumbers | string.go:14-17 | The result is no longer than the input and holds ASCII digits only |
| Strings.ExtractAlphaNum | string.go:20-24 | The result is no longer than the input and holds only `[a-zA-Z0-9]` or characters of the extra class |
| Strings.ExtractAlphaNumPersian | string.go:27-31 | As ExtractAlphaNum, with the Arabic block and the Persian letters in the class |
| Strings.ExtractNumbersExact | string.go:14-17 | Every digit occurs in the result as often as in the input and nothing else occurs; an all-digit input comes back unchanged; extracting is idempotent |
| Strings.ExtractAlphaNumExact | string.go:20-24 | Every character of the class occurs as often as in the input and no other character occurs; the alphanumerics of the input all come through, in order, whatever the extra class |
| Strings.ExtractAlphaNumPersianExact | string.go:27-31 | The same for the Persian class |
| Strings.ExtractNumbersOfRuns | string.go:14-17 | Digit runs separated by non-digit runs are kept in order and closed up |
| Strings.ExtractNumbersExample | string_test.go:10-17 | ExtractNumbers("abc123def456") is "123456" |
| Strings.ExtractAlphaNumExample | string_test.go:19-26 | ExtractAlphaNum("abc123!@_def456") is "abc123def456" |
| Strings.CollapseRunsShape | string.go:59-60 | After collapsing, every character is a dash or a non-separator character of the input, and no two dashes are adjacent |
| Strings.CollapseRunsKeepsText | string.go:59-60 | Collapsing changes separators only: the other characters pass through unchanged and in order |
| Strings.CollapseRunsAppend | string.go:59-60 | Collapsing a concatenation collapses each piece, carrying across the cut whether a run is open |
| Strings.CollapseRunsNoSeparators | string.go:59-60 | Text without separators is left exactly as it is |
| Strings.CollapseRunsAllSeparators | string.go:59-60 | A non-empty run of separators becomes exactly one dash |
| Strings.CollapseBetweenWords | string.go:59-60 | Two words around a separator run become the words joined by one dash |
| Strings.Slugify | string.go:57-61 | Filter of the space-joined parts by `[a-zA-Z0-9\s\-]`, then each separator run collapsed to one dash; its meaning is stated by SlugifyShape and SlugifyTwoWords |
| Strings.SlugifyPersian | string.go:65-69 | The same with the Persian class; its meaning is stated by SlugifyPersianShape and SlugifyPersianTwoWords |
| Strings.SlugShape | string.go:58-60 | Collapsing text made of letters and separators gives letters and single dashes, with the same letters in the same order |
| Strings.SlugifyShape | string.go:57-61 | A slug holds only alphanumerics and dashes, never two adjacent dashes, and every alphanumeric of the space-joined parts, in order |
| Strings.SlugifyPersianShape | string.go:65-69 | The same for the Persian slug and the Persian class |
| Strings.SlugifyTwoWords | string.go:57-61 | Two alphanumeric words with any separators between them and other characters after them slugify to the words joined by one dash |
| Strings.SlugifyPersianTwoWords | string.go:65-69 | The same for words of English and Persian letters and digits |
| Strings.SlugifyExample | string_test.go:59-66 | Slugify("Hello-- ", "  World!") is "Hello-World" |
| Strings.SlugifyPersianExample | string_test.go:68-75 | SlugifyPersian of the Persian words for "hello" and "world!" is those words joined by one dash |
| Strings.Concat | string.go:72-80 | The result is the parts whose trimmed form is non-empty, kept in order and joined with the separator |
| Strings.ConcatAllBlank | string.go:72-80 | When every part is blank the result is "" |
| Strings.ConcatExample | string_test.go:77-85 | Concat(" ", "Hello", "", "      ", "World") is "Hello World" |
| Strings.JoinAppend | string.go:79 | strings.Join of one more part appends the separator and that part, the step Concat's loop relies on |
| Strings.RandomString | string.go:34-43 | The result has n characters; the i-th is the character at the i-th draw, so every character comes from the set |
| Strings.RandomNumeric | string.go:46-48 | n characters, all decimal digits |
| Strings.RandomAlphaNum | string.go:51-53 | n characters, all in `[A-Z0-9]` |
| Strings.UpperAlphaNumClass | string.go:51-53 | Every character of RandomAlphaNum's alphabet is an upper-case letter or a digit |
| Files.ExtShape | file.go:156 | filepath.Ext gives a suffix of the last path element; it is empty exactly when that element has no dot, and otherwise is one dot followed by neither dot nor slash |
| Files.Lower | file.go:156 | strings.ToLower on ASCII: the length is kept, each upper-case letter becomes the letter at the same place in the lower-case alphabet, every other character is unchanged, and no upper-case letter is left |
| Files.LowerIdempotent | file.go:156 | Lower-casing twice is lower-casing once |
| Files.GetFilename | file.go:162-167 | The file name followed by the extension is the base name |
| Files.FilenameSplits | file.go:162-167 | The extension is a suffix of the base name, so trimming it removes exactly the extension |
| Files.SplitDottedName | file.go:162-167 | For stem + "." + ext (no slash, no dot in ext) the extension is "." + ext and the file name is the stem |
| Files.SplitPlainName | file.go:162-167 | A name with neither dot nor slash has no extension and is its own file name |
| Files.GetExtension | file.go:154-159 | "" when there is no extension; otherwise a dot followed by the result is the lower-cased extension; the result has no dot |
| Files.ExtensionOfDottedName | file.go:154-159 | The extension reported for stem + "." + ext is ext in lower case |
| Files.FilenameExample | file_test.go:145-152 | GetFilename("testfile.txt") is "testfile" |
| Files.ExtensionExample | file_test.go:136-143 | GetExtension("testfile.txt") is "txt" |
| Files.TimestampedFileAsWritten | file.go:170-174 | The name built by the code starts with the stem and a dash and ends with the extension |
| Files.TimestampedFileAsWrittenMissesSuffix | file.go:170-174 | For every clock reading, the name the code builds for "testfile.txt" does not end with "-testfile.txt" |
| Files.TimestampedFile | file.go:169 | The corrected name ends with a dash followed by the base name |
| Files.TimestampedFileRoundTrip | file.go:169-173 | The part before that dash is all digits and reads back as the clock reading |
| Files.TimestampedFileKeepsSuffix | file_test.go:154-160 | The corrected name for "testfile.txt" ends with "-testfile.txt" for every clock reading |
| Files.DecimalRoundTrip | file.go:191 | strconv.Itoa writes digits only, no leading zero, and reads back as the number |
| Files.DecimalInjective | file.go:191-192 | Different counters are written differently |
| Files.FileExists | file.go:76-85 | true exactly on success; no error exactly on success or absence; any other stat failure comes back as that error and never as absence |
| Files.NumberedFile | file.go:177-202 | The outcome is Allocate and the names probed are Probes; a returned name was reported absent by the oracle |
| Files.SearchStep | file.go:190-199 | One loop iteration either ends the search (absent name returned, failure returned) or hands it on to the next counter after one probe |
| Files.SearchFirstNotFound | file.go:190-199 | If every counter from i to k-1 exists, the search from i returns the name or the failure for k |
| Files.SearchAllFound | file.go:190-201 | If every counter below MaxUint32 exists, the search ends with the "try MaxUint32 name failed" error |
| Files.AllocateFirstNotFound | file.go:177-199 | If the names for counters 0..k-1 exist and the one for k does not, that name is returned; if probing k fails, that failure is returned |
| Files.AllocateExhausted | file.go:177-201 | If every name up to the bound exists, the result is an error and no name |
| Files.SearchExhaustedOnlyIfAllFound | file.go:190-201 | The search from i ends in the exhaustion error only if every counter from i below MaxUint32 exists |
| Files.AllocateExhaustedOnlyIfAllFound | file.go:177-201 | NumberedFile fails with the exhaustion error only if every name up to the bound exists |
| Files.SearchResultIsFirstFree | file.go:190-199 | A name returned by the search from i belongs to a counter k >= i that is absent, with every counter from i to k-1 existing |
| Files.AllocateResultIsFirstFree | file.go:177-199 | A returned name is the one for the least counter whose name is absent; every smaller counter's name exists |
| Files.FirstCandidateIsBase | file.go:178-186 | The first name probed is the base name of the requested file |
| Files.CandidatesDistinct | file.go:190-192 | Different counters give different names |
| Files.SearchProbesShape | file.go:190-199 | The search probes the names for i, i+1, ... in order, and every probe but the last found an existing entry |
| Files.ProbesShape | file.go:177-199 | NumberedFile probes the base name first, then the counters in increasing order, at most MaxUint32 names, and every name but the last exists |
| Files.SearchProbesStop | file.go:190-199 | The search stops probing at the first counter whose name is absent or fails |
| Files.ProbesStop | file.go:181-199 | If the names for 0..k-1 exist and probing k does not find one, exactly k+1 names are probed; in particular an absent or failing first name means no further probe |
| Files.ProbesDistinct | file.go:181-199 | No name is probed twice |
| Files.AllocateReturnsLastProbe | file.go:181-199 | A returned name is the last name probed |
| Files.NumberedFileExample | file_test.go:162-176 | In a directory holding testfile.txt, the next name is testfile-1.txt |
| Files.NumberedFileNoExtensionExample | file.go:190-197 | In a directory holding notes and notes-1, the next name is notes-2 |
| Files.NumberedFileErrorExample | file.go:182-184 | A failing first probe returns that failure, and the base name is the only name probed |

## Findings

| source | as written | input that shows it | evidently intended | confidence | as-written member | corrected member |
|---|---|---|---|---|---|---|
| file.go:169-174 | TimestampedFile builds stem + "-" + timestamp + ext, placing the timestamp between stem and extension | "testfile.txt" at any clock reading gives "testfile-<digits>.txt", which does not end with "-testfile.txt" as file_test.go:154-160 expects | the timestamp as a prefix, as the doc comment says: timestamp + "-" + base name | medium, not executed | Files.TimestampedFileAsWrittenMissesSuffix | Files.TimestampedFileKeepsSuffix |

## Left out

- Pointers.IsSame, Pointers.IsEmpty, Pointers.Alter, Pointers.NullableOf: Go's `==` on a `comparable` type is modelled as mathematical equality. Two Go cases are not captured. A pointer to a float NaN is not IsSame with itself, and a NaN is never equal to zero. Comparing interface values that hold incomparable dynamic types panics.
- Strings: Go strings are byte sequences, while the model's strings are sequences of Unicode scalar values. On invalid UTF-8 the regular-expression classes see each bad byte as U+FFFD and remove it. Such input cannot be represented here.
- Directory I/O is not modelled: CreateDirectory, IsDirectory, GetSubDirectory, ClearDirectory, and the directory walks of FindFile and FindFiles. These need a real file system and Go's regular-expression engine.
- The file system behind FileExists and NumberedFile is an oracle `stat` from names to `Found`, `NotExist` or `Failed(cause)`. `NormalizePath(dir, name)` is folded into the oracle.
- The check-then-create race between NumberedFile returning a name and the caller creating it is not modelled. It concerns concurrent file-system activity, not the loop.
- GetMime is not modelled. It wraps a MIME-detection library.
- TimestampedFile: the clock reading `time.Now().UnixMilli()` is a parameter. It is a `nat`, so timestamps before 1970, which FormatInt would write with a minus sign, are not modelled.
- The rounding functions and the floating-point instantiations of Abs, Min and Max are not modelled. They concern floating point.
- FormatNumber and FormatRx are not modelled. They depend on a locale printer and on general regular-expression substitution.
- web.go is not part of this model.
- Strings.ExtractAlphaNum and Strings.ExtractAlphaNumPersian take the extra class fragment `includes` as a character predicate, not as regular-expression text. Slugify passes `[\s\-]`, modelled as IsSlugSeparator.
- The worked example of string_test.go:28-35 is not restated as a lemma. The class of ExtractAlphaNumPersian is covered by ExtractAlphaNumPersianExact, SlugifyPersianTwoWords and SlugifyPersianExample.
- Files.GetExtension: strings.ToLower is modelled for ASCII letters only. Other letters are left as they are.
- Numbers.Abs, Numbers.Min, Numbers.Max: integers are unbounded, so the wrap-around of Abs at the most negative fixed-width value is not modelled.
- Strings.RandomString: Go indexes the character set by byte. The model indexes it by character, which is the same for the ASCII sets RandomNumeric and RandomAlphaNum use.
- Strings.RandomString: the random source is a parameter `draws`. Each draw is a result of Intn(len(characters)) and lies in `[0, len(characters))`. This also makes the set non-empty whenever n > 0, as Intn demands.
- Files.Ext and Files.Base follow filepath on '/'-separated paths. Windows volume names and '\\' separators are not modelled.
