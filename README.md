# Search engine of DB-Search-GUI, modelled in Dafny

The engine is `search_folder` in `src/search.rs`. It normalises Persian and
Arabic letter and digit variants (`normalize_farsi`). It walks a directory
tree and keeps the regular files with an allowed extension. It tests every line of
every such file, in normalised form, against a regular expression compiled from
the normalised pattern. It returns the total number of matching lines and,
when a report path is given, writes one block per file with matches.

The model has one module per part of that file:

- `FarsiText` (`normalize.dfy`): the normaliser. `NormalizeChain` is the
  source's chain of 25 `replace` calls, in the source's order. `Normalize` is
  a per-character fold. `ChainIsNormalize` proves the two are equal.
- `Discovery` (`discovery.dfy`): the extension filter over the items the walk
  yields. This covers `Path::extension`, `OsStr::to_str`, lower-casing and the
  allowlist.
- `LineSplit` (`lines.dfy`): `str::lines`, which splits a file's text into lines.
- `Search` (`search.dfy`): the per-file matching loop, the running total,
  the report writer and the whole `search_folder` as sequential methods. The
  methods are proved against the functions `MatchingLines`, `TotalMatches`
  and `Report`. `Wrappers` (`wrappers.dfy`) holds `Option`.

Inputs that stand for what the model cannot see:

- the regex engine is `compile: string -> Option<string -> bool>`, applied to
  the normalised pattern (`None` is a pattern that does not compile);
- the directory walk is the sequence of `WalkItem`s it yields;
- the file system is `fs: string -> FileContent`: a file's decoded text at
  the moment it is opened, or `Unreadable` when the open or the map fails;
- `creatable` says whether the report file can be created.

Behaviour of the code that the model keeps:

- The report file is created with `File::create(path).unwrap()`
  (src/search.rs:67). This happens after the walk, and a failure panics. The
  model's outcome for it is `CreatePanic`.
- Write errors are discarded with `.ok()` (src/search.rs:88-92). In the model
  writes always succeed.
- A root directory that does not exist yields only walk errors, which
  `filter_map(Result::ok)` drops (src/search.rs:53), so the scan returns a
  total of 0. In the model a walk of `WalkError` items has no candidates.
- The table keeps the step that maps Persian kaf to itself (src/search.rs:22).
  It is a no-op, and `ChainIsNormalize` shows it changes nothing.
- Matching is case-sensitive in whatever way the compiled expression is. The
  matcher is abstract, so the model fixes no case policy.
- Line splitting is that of current Rust `str::lines`: a line ending in
  "\r\n" loses both characters, and a last line without '\n' keeps a trailing
  '\r'. Older versions of the standard library also dropped that final bare
  '\r'. No toolchain is pinned, so the current behaviour is the one modelled.

## Model

| member | source | states |
|---|---|---|
| FarsiText.FoldChar | src/search.rs:18-42 | the folded character is never a variant (Arabic yeh, alef maksura, yeh with hamza, Arabic kaf, a Persian or Arabic-Indic digit); a non-variant character passes unchanged; yeh variants give Persian yeh, Arabic kaf gives Persian kaf, digits give ASCII digits |
| FarsiText.FoldDigitValue | src/search.rs:23-42 | each Persian and each Arabic-Indic digit of value d folds to the ASCII digit of value d |
| FarsiText.FoldCharIdempotent | src/search.rs:18-42 | folding twice is folding once |
| FarsiText.Normalize | src/search.rs:16-43 | normalisation preserves length |
| FarsiText.NormalizeAt | src/search.rs:17-42 | the character at position i of the output is the fold of the input's character at i |
| FarsiText.NormalizeCanonical | src/search.rs:18-42 | no variant character occurs in normalised text |
| FarsiText.NormalizeFixesCanonical | src/search.rs:17-42 | text without variant characters is returned unchanged |
| FarsiText.NormalizeIdempotent | src/search.rs:16-43 | normalising twice gives the same text as normalising once |
| FarsiText.NormalizeConcat | src/search.rs:16-43 | normalising a concatenation is concatenating the normalised parts |
| FarsiText.ReplaceChar | src/search.rs:18 | `replace` of a character by a one-character string keeps length and rewrites exactly the occurrences of that character; if the replacement does not hold the character, the character is gone afterwards |
| FarsiText.NormalizeChainAt | src/search.rs:16-43 | the 25 replacements act on each position alone: the chain keeps length, and its character at i is the 25 single-character steps applied, in order, to the input's character at i |
| FarsiText.ChainCharIsFold | src/search.rs:18-42 | on one character the 25 steps in the source's order give its fold: no step produces a character that a later step rewrites |
| FarsiText.NormalizeChain | src/search.rs:16-43 | the 25 replacements in the source's order keep the length of the text (each replaces one character by one) |
| FarsiText.ChainIsNormalize | src/search.rs:16-43 | the 25-step replacement chain in the source's order equals the per-character fold |
| FarsiText.VariantSpellingsAgree | src/search.rs:18-22 | a yeh followed by a kaf normalises to the Persian spelling whether it is written all in Arabic forms, all in Persian forms, or mixed |
| Discovery.LastDot | src/search.rs:56 | the index found holds a dot and no dot follows it; when none is found, the name has no dot |
| Discovery.Extension | src/search.rs:56 | a name without a dot has no extension; an extension is the end of the name, preceded by a dot, and leaves at least one unit before that dot |
| Discovery.ExtensionAt | src/search.rs:56 | a dot after the first position with no dot after it makes the rest of the name the extension (unless the name is "..") |
| Discovery.ExtensionFound | src/search.rs:56 | an extension is what follows the last dot, which is not the leading character, and holds no dot |
| Discovery.ExtensionShape | src/search.rs:56 | a file name has extension x exactly when it is not "..", x holds no dot, and the name is a non-empty stem, a dot and x |
| Discovery.ToStr | src/search.rs:57 | the extension converts to text exactly when all its units are characters, and the text is those characters |
| Discovery.Lower | src/search.rs:58 | lower-casing keeps length, lowers each character on its own (A-Z to a-z, KELVIN SIGN to 'k', others unchanged), and leaves no ASCII capital or Kelvin sign |
| Discovery.LowerChar | src/search.rs:58 | an ASCII capital becomes the lower-case letter at the same offset, KELVIN SIGN becomes 'k', and every other character is unchanged |
| Discovery.IsCandidate | src/search.rs:54-60 | a candidate is a regular file that has an extension |
| Discovery.CandidateExtensionLength | src/search.rs:11-13 | a candidate's extension has two to four units, the lengths in the allowlist, so its name has at least four |
| Discovery.CaseChangeKeepsCandidate | src/search.rs:55-59 | changing the case of ASCII letters in a candidate's name keeps it a candidate |
| Discovery.CandidateIgnoresAsciiCase | src/search.rs:55-59 | two entries of the same file type whose names differ only in the case of ASCII letters are both candidates or neither |
| Discovery.CandidateByName | src/search.rs:54-60 | an entry is a candidate exactly when it is a regular file whose name, after its last (non-leading) dot, has an all-Unicode part whose lower case is in the allowlist |
| Discovery.Candidates | src/search.rs:51-62 | the candidates are no more than the items of the walk |
| Discovery.CandidatesMembership | src/search.rs:51-62 | a path is a candidate exactly when some walked entry with that path passes the filter; walk errors contribute nothing |
| Discovery.CandidatesVisited | src/search.rs:51-62 | every candidate path is the path of a walked entry |
| Discovery.CandidatesOnce | src/search.rs:51-62 | a walk that yields each path once gives each candidate once |
| Discovery.UpperCaseExtensionAccepted | src/search.rs:58 | "a.TXT" is a candidate: the comparison ignores case |
| Discovery.KelvinExtensionAccepted | src/search.rs:58 | an extension of KELVIN SIGN and 't' lower-cases to "kt" and is accepted |
| Discovery.NonCandidates | src/search.rs:54-59 | a directory, a name whose only dot is leading, a name without dot, and a non-Unicode extension are excluded |
| LineSplit.NewlineIndex | src/search.rs:75 | the index is the first '\n', or the length when there is none |
| LineSplit.NewlineOfTerminated | src/search.rs:75 | in a line followed by "\n" or "\r\n" the first '\n' is the terminator's |
| LineSplit.LinesStep | src/search.rs:75 | a line followed by its terminator is split off, unchanged, as the first line, and the rest is split on its own |
| LineSplit.StripCr | src/search.rs:75 | the result is the text or the text less its last character, and it is shorter exactly when the text ends in '\r' |
| LineSplit.Lines | src/search.rs:75 | no line holds a '\n', and there are no more lines than characters |
| LineSplit.LinesOfTerminated | src/search.rs:75 | lines ended by "\n", or by "\r\n", with an optional unterminated last line, split back into exactly those lines |
| Search.MatchingLines | src/search.rs:73-81 | the matches are no more than the lines |
| Search.MatchingLinesAppend | src/search.rs:75-81 | one more line adds that line to the end of the matches exactly when its normal form is accepted |
| Search.MatchingLinesMembership | src/search.rs:76-79 | a line is among the matches exactly when it is a line of the file whose normalised form the matcher accepts; the original text is what is kept |
| Search.MatchingLinesCount | src/search.rs:73-81 | the number of matches is the number of accepted lines, and the matches are all the lines exactly when every line is accepted |
| Search.MatchingLinesWithin | src/search.rs:75-81 | every match is a line of the file whose normal form the matcher accepts |
| Search.FileMatches | src/search.rs:70-81 | an unreadable file has no matches; a mapped file has no more matches than lines, and each match holds no '\n' and is accepted in normal form |
| Search.MatchFile | src/search.rs:73-81 | the loop's `matches` is the in-order subsequence of original lines whose normal form is accepted |
| Search.Block | src/search.rs:88-92 | a block has no lines without matches, and otherwise the matches plus two lines |
| Search.BlockFormat | src/search.rs:83-93 | a file's block is empty exactly when it has no matches; otherwise it is "<path> =", the matched lines in order, and "" |
| Search.TotalMatches | src/search.rs:84 | the total is at least each file's count, and it is 0 exactly when no file has a match |
| Search.Report | src/search.rs:86-93 | the report is empty exactly when the total is 0 |
| Search.TotalConcat | src/search.rs:84 | the total over two lists of files is the sum of their totals |
| Search.ReportConcat | src/search.rs:86-93 | the report over two lists of files is the first's blocks followed by the second's |
| Search.SilentFile | src/search.rs:70-71 | a file with no matches, in particular an unreadable one, changes neither the total nor the report |
| Search.ReportSize | src/search.rs:83-93 | the report has one line per counted match plus two per file with matches |
| Search.TotalOrderIndependent | src/search.rs:69 | the total is the same for any order of the files, so the order the worker pool picks does not change it |
| Search.WriteBlock | src/search.rs:86-93 | writing a block appends exactly the file's block to the report |
| Search.ScanFile | src/search.rs:70-94 | one file adds its number of matches to the total and, when there is a report, appends its block; an unreadable file adds nothing |
| Search.ScanFiles | src/search.rs:66-97 | after the loop the total is the sum of all files' counts and the report, when requested, is their blocks in scan order |
| Search.SearchFolder | src/search.rs:46-100 | an uncompilable normalised pattern gives the pattern error whatever the files; a report that cannot be created panics; otherwise the result is the total over the candidates of the walk and, with a report path, the report of their blocks |

## Left out

- The directory walk itself (WalkDir): file system I/O. Its output is the input sequence of walk items, in the walk's order. `isFile` stands for `file_type().is_file()`, which does not follow symbolic links.
- Regex compilation and matching: a foreign library, replaced by the `compile` parameter.
- `File::open`, `Mmap::map` and `from_utf8_lossy`: I/O and byte decoding. A file's content is its decoded text or `Unreadable`.
- The report's `BufWriter` and `File::create`: the report is the sequence of lines written, each `writeln!` being one line. Creation is the `creatable` flag.
- The rayon `par_iter` and the two mutexes: files are scanned sequentially in list order. Blocks are atomic in the code, so the report is faithful up to block order. `TotalOrderIndependent` shows the total does not depend on order.
- The `println!` progress line (src/search.rs:64).
- Discovery.Lower: only A-Z and KELVIN SIGN are lowered. The other Unicode lower-case mappings of `to_lowercase` are not modelled. They never yield an all-ASCII string, so they cannot make an extension match the allowlist; this is stated, not proved.
- Search.ScanFile: the total is a `nat`. The code's `usize` counter (src/search.rs:84) is 32 bits on 32-bit targets and 64 bits on 64-bit ones; past its maximum the `+=` wraps in a release build and panics in a debug build. The model has neither.
- src/gui.rs and src/main.rs: the window, the dialogs, the thread that calls the engine, and text reshaping for display.
- Discovery.Entry: the displayed path and the file name are independent inputs, and `fs` and the report header are keyed by the displayed path. Two paths that are not UTF-8 and display alike (through U+FFFD) therefore share one content in the model, while the code opens each `PathBuf` on its own. An `Invalid` unit may also hold an ASCII byte, which a real name can never have as an invalid unit; no well-formedness condition excludes it.
- `fs` is unconstrained, so it may give any content to any path. The GUI always reports to `results.txt` in the working directory (src/gui.rs:91-92). A `results.txt` left inside the searched tree is then a candidate that `File::create` truncates (src/search.rs:67) before it is read while the report is being written. The model covers this only because `fs` can give that file any content; the interaction itself is not modelled.
