/** Candidate files: the filter that `search_folder` applies to the entries
    of the recursive directory walk. The walk itself is an input: the
    sequence of items it yields, in its order. */
module Discovery {
  import opened Wrappers

  /** The fixed allowlist of lower-case extensions. */
  const ValidExtensions: seq<string> := [
    "txt", "log", "md", "csv", "json", "xml", "html", "htm", "eml", "rtf",
    "odt", "ods", "docx", "xlsx", "java", "kt", "epub"
  ]

  /** One unit of an OS file name: a Unicode character, or a byte that is
      not part of any well-formed UTF-8 sequence. */
  datatype NameUnit = Char(c: char) | Invalid(b: bv8)

  /** A walked entry: its path as displayed, whether its file type is a
      regular file, and its file name (the last path component). */
  datatype Entry = Entry(path: string, isFile: bool, name: seq<NameUnit>)

  /** An item of the walk: an entry, or an error the walk reported. */
  datatype WalkItem = WalkError | Visited(entry: Entry)

  const Dot: NameUnit := Char('.')

  /** Index of the last dot of a file name. */
  function LastDot(name: seq<NameUnit>): (r: Option<nat>)
    ensures r.Some? ==> r.value < |name| && name[r.value] == Dot
                        && forall j :: r.value < j < |name| ==> name[j] != Dot
    ensures r.None? ==> Dot !in name
  {
    if name == [] then None
    else if name[|name| - 1] == Dot then Some(|name| - 1)
    else LastDot(name[..|name| - 1])
  }

  /** `Path::extension` on a file name: the part after the last dot, unless
      there is no dot, the only dot starts the name, or the name is "..". */
  function Extension(name: seq<NameUnit>): (r: Option<seq<NameUnit>>)
    ensures Dot !in name ==> r.None?
    ensures r.Some? ==> |r.value| + 2 <= |name| && name[|name| - |r.value| - 1] == Dot
  {
    if name == [Dot, Dot] then None
    else match LastDot(name)
      case None => None
      case Some(k) => if k == 0 then None else Some(name[k + 1..])
  }

  /** A dot after the first position with no dot after it is the last dot,
      and the name's extension is what follows it. */
  lemma ExtensionAt(name: seq<NameUnit>, k: nat)
    requires name != [Dot, Dot] && 0 < k < |name| && name[k] == Dot
    requires Dot !in name[k + 1..]
    ensures Extension(name) == Some(name[k + 1..])
  {
    var last := LastDot(name);
    assert last.Some?;
  }

  /** An extension is what follows the last dot, which is not the first
      character, and holds no dot. */
  lemma ExtensionFound(name: seq<NameUnit>)
    requires Extension(name).Some?
    ensures var k := LastDot(name).value;
      0 < k < |name| && name[k] == Dot && name != [Dot, Dot] &&
      Extension(name).value == name[k + 1..] && Dot !in name[k + 1..]
  {
    var k := LastDot(name).value;
    var tail := name[k + 1..];
    forall j | 0 <= j < |tail| ensures tail[j] != Dot {
      assert tail[j] == name[k + 1 + j];
    }
  }

  /** A name has extension x exactly when it is a non-empty stem, a dot and
      x, where x holds no dot (and the name is not ".."). */
  lemma ExtensionShape(name: seq<NameUnit>, x: seq<NameUnit>)
    ensures Extension(name) == Some(x) <==>
      name != [Dot, Dot] && Dot !in x &&
      exists k :: 0 < k < |name| && name[k] == Dot && name[k + 1..] == x
  {
    if name != [Dot, Dot] && Dot !in x && exists k :: 0 < k < |name| && name[k] == Dot && name[k + 1..] == x {
      var k :| 0 < k < |name| && name[k] == Dot && name[k + 1..] == x;
      ExtensionAt(name, k);
    }
    if Extension(name) == Some(x) {
      ExtensionFound(name);
    }
  }

  /** `OsStr::to_str`: the text of a name part when it is all Unicode. */
  function ToStr(u: seq<NameUnit>): (r: Option<string>)
    ensures r.Some? <==> forall i :: 0 <= i < |u| ==> u[i].Char?
    ensures r.Some? ==> |r.value| == |u| && forall i :: 0 <= i < |u| ==> u[i] == Char(r.value[i])
  {
    if u == [] then Some([])
    else if u[0].Invalid? then None
    else match ToStr(u[1..])
      case None => None
      case Some(rest) => Some([u[0].c] + rest)
  }

  const KelvinSign: char := '\U{212A}'

  /** `char::to_lowercase` for the characters whose lower case is an ASCII
      letter: A-Z, and KELVIN SIGN, which lower-cases to 'k'. */
  function LowerChar(c: char): (r: char)
    ensures 'A' <= c <= 'Z' ==> r as int == c as int - 'A' as int + 'a' as int
    ensures c == KelvinSign ==> r == 'k'
    ensures !('A' <= c <= 'Z') && c != KelvinSign ==> r == c
  {
    if 'A' <= c <= 'Z' then (c as int - 'A' as int + 'a' as int) as char
    else if c == KelvinSign then 'k'
    else c
  }

  /** `str::to_lowercase`, character by character. */
  function Lower(s: string): (r: string)
    ensures |r| == |s|
    ensures forall i :: 0 <= i < |s| ==> r[i] == LowerChar(s[i])
    ensures forall i :: 0 <= i < |s| ==> !('A' <= r[i] <= 'Z') && r[i] != KelvinSign
  {
    if s == [] then [] else [LowerChar(s[0])] + Lower(s[1..])
  }

  predicate IsAsciiLetter(c: char) {
    'A' <= c <= 'Z' || 'a' <= c <= 'z'
  }

  /** Two name units that are equal, or the same ASCII letter in either
      case. */
  predicate SameUpToAsciiCase(u: NameUnit, v: NameUnit) {
    u == v ||
    (u.Char? && v.Char? && IsAsciiLetter(u.c) && IsAsciiLetter(v.c) && LowerChar(u.c) == LowerChar(v.c))
  }

  /** Two file names that differ at most in the case of ASCII letters. */
  predicate NamesUpToAsciiCase(a: seq<NameUnit>, b: seq<NameUnit>) {
    |a| == |b| && forall i :: 0 <= i < |a| ==> SameUpToAsciiCase(a[i], b[i])
  }

  /** The filter of the walk: a regular file whose extension is Unicode text
      and, lower-cased, one of the allowlist. */
  predicate IsCandidate(e: Entry)
    ensures IsCandidate(e) ==> e.isFile && Extension(e.name).Some?
  {
    e.isFile &&
    match Extension(e.name)
      case None => false
      case Some(x) =>
        match ToStr(x)
          case None => false
          case Some(t) => Lower(t) in ValidExtensions
  }

  /** The allowlist's extensions have two to four letters. */
  lemma AllowlistLengths(t: string)
    requires t in ValidExtensions
    ensures 2 <= |t| <= 4
  {
  }

  /** A candidate's extension has two to four units, so its name has at
      least four: a stem, the dot and the extension. */
  lemma CandidateExtensionLength(e: Entry)
    requires IsCandidate(e)
    ensures 2 <= |Extension(e.name).value| <= 4 && 4 <= |e.name|
  {
    var x := Extension(e.name).value;
    AllowlistLengths(Lower(ToStr(x).value));
  }

  /** The filter in terms of the file name: a regular file whose name is
      not "..", and which after its last dot, not the leading one, has an
      all-Unicode part whose lower case is in the allowlist. So a name
      without an extension, or whose extension is not Unicode, is out. */
  lemma CandidateByName(e: Entry)
    ensures IsCandidate(e) <==>
      e.isFile && e.name != [Dot, Dot] &&
      exists k :: 0 < k < |e.name| && e.name[k] == Dot && Dot !in e.name[k + 1..] &&
        ToStr(e.name[k + 1..]).Some? && Lower(ToStr(e.name[k + 1..]).value) in ValidExtensions
  {
    if IsCandidate(e) {
      CandidateHasDot(e);
    }
    if e.isFile && e.name != [Dot, Dot] &&
       exists k :: 0 < k < |e.name| && e.name[k] == Dot && Dot !in e.name[k + 1..] &&
         ToStr(e.name[k + 1..]).Some? && Lower(ToStr(e.name[k + 1..]).value) in ValidExtensions
    {
      var k :| 0 < k < |e.name| && e.name[k] == Dot && Dot !in e.name[k + 1..] &&
         ToStr(e.name[k + 1..]).Some? && Lower(ToStr(e.name[k + 1..]).value) in ValidExtensions;
      DotMakesCandidate(e, k);
    }
  }

  /** A candidate's last dot is the dot of the name shape. */
  lemma CandidateHasDot(e: Entry)
    requires IsCandidate(e)
    ensures var k := LastDot(e.name).value;
      e.isFile && e.name != [Dot, Dot] &&
      0 < k < |e.name| && e.name[k] == Dot && Dot !in e.name[k + 1..] &&
      ToStr(e.name[k + 1..]).Some? && Lower(ToStr(e.name[k + 1..]).value) in ValidExtensions
  {
    ExtensionFound(e.name);
  }

  /** A regular file with an accepted part after a final, non-leading dot is
      a candidate. */
  lemma DotMakesCandidate(e: Entry, k: nat)
    requires e.isFile && e.name != [Dot, Dot] && 0 < k < |e.name| && e.name[k] == Dot
    requires Dot !in e.name[k + 1..]
    requires ToStr(e.name[k + 1..]).Some? && Lower(ToStr(e.name[k + 1..]).value) in ValidExtensions
    ensures IsCandidate(e)
  {
    ExtensionAt(e.name, k);
  }

  /** A change of ASCII case keeps the dots, so the extension is cut at the
      same place and differs from the original one only in case. */
  lemma CaseChangeKeepsExtension(a: seq<NameUnit>, b: seq<NameUnit>)
    requires NamesUpToAsciiCase(a, b)
    requires Extension(a).Some?
    ensures Extension(b).Some? && NamesUpToAsciiCase(Extension(a).value, Extension(b).value)
  {
    ExtensionFound(a);
    var k := LastDot(a).value;
    assert forall i :: 0 <= i < |a| ==> (a[i] == Dot <==> b[i] == Dot);
    var x, y := a[k + 1..], b[k + 1..];
    assert forall i :: 0 <= i < |y| ==> x[i] == a[k + 1 + i] && y[i] == b[k + 1 + i];
    assert Dot !in y by {
      forall i | 0 <= i < |y| ensures y[i] != Dot {
        assert x[i] != Dot;
      }
    }
    ExtensionAt(b, k);
  }

  /** Units that differ only in ASCII case are text together, and their
      texts lower-case alike. */
  lemma CaseChangeKeepsLower(x: seq<NameUnit>, y: seq<NameUnit>)
    requires NamesUpToAsciiCase(x, y)
    requires ToStr(x).Some?
    ensures ToStr(y).Some? && Lower(ToStr(x).value) == Lower(ToStr(y).value)
  {
    assert forall i :: 0 <= i < |y| ==> y[i].Char? by {
      forall i | 0 <= i < |y| ensures y[i].Char? {
        assert x[i].Char?;
      }
    }
    var t, t' := ToStr(x).value, ToStr(y).value;
    var l, l' := Lower(t), Lower(t');
    forall i | 0 <= i < |t| ensures l[i] == l'[i] {
      assert x[i] == Char(t[i]) && y[i] == Char(t'[i]);
      assert SameUpToAsciiCase(x[i], y[i]);
    }
  }

  /** A change of ASCII case keeps a candidate a candidate. */
  lemma CaseChangeKeepsCandidate(e: Entry, f: Entry)
    requires e.isFile == f.isFile && NamesUpToAsciiCase(e.name, f.name)
    requires IsCandidate(e)
    ensures IsCandidate(f)
  {
    CaseChangeKeepsExtension(e.name, f.name);
    CaseChangeKeepsLower(Extension(e.name).value, Extension(f.name).value);
  }

  /** The filter ignores ASCII case in the whole name: two regular files, or
      two other entries, whose names differ only in the case of ASCII
      letters are both candidates or neither. */
  lemma CandidateIgnoresAsciiCase(e: Entry, f: Entry)
    requires e.isFile == f.isFile && NamesUpToAsciiCase(e.name, f.name)
    ensures IsCandidate(e) <==> IsCandidate(f)
  {
    assert NamesUpToAsciiCase(f.name, e.name);
    if IsCandidate(e) {
      CaseChangeKeepsCandidate(e, f);
    }
    if IsCandidate(f) {
      CaseChangeKeepsCandidate(f, e);
    }
  }

  /** The paths of the candidate entries, in walk order; walk errors are
      dropped. */
  function Candidates(walk: seq<WalkItem>): (r: seq<string>)
    ensures |r| <= |walk|
  {
    if walk == [] then []
    else
      (if walk[0].Visited? && IsCandidate(walk[0].entry) then [walk[0].entry.path] else [])
      + Candidates(walk[1..])
  }

  /** A path is a candidate exactly when some entry of the walk with that
      path passes the filter. */
  lemma {:induction false} CandidatesMembership(walk: seq<WalkItem>, p: string)
    ensures p in Candidates(walk) <==>
      exists k :: 0 <= k < |walk| && walk[k].Visited? && IsCandidate(walk[k].entry) && walk[k].entry.path == p
  {
    if walk != [] {
      var rest := walk[1..];
      CandidatesMembership(rest, p);
      assert forall k :: 0 < k < |walk| ==> walk[k] == rest[k - 1];
    }
  }

  predicate NoDuplicates<T(==)>(s: seq<T>) {
    forall i, j :: 0 <= i < j < |s| ==> s[i] != s[j]
  }

  /** The paths of the walked entries, walk errors dropped. */
  function VisitedPaths(walk: seq<WalkItem>): seq<string> {
    if walk == [] then []
    else (if walk[0].Visited? then [walk[0].entry.path] else []) + VisitedPaths(walk[1..])
  }

  /** A sequence with a first element has no duplicates exactly when the
      rest has none and does not hold the first. */
  lemma NoDuplicatesCons<T>(x: T, s: seq<T>)
    ensures NoDuplicates([x] + s) <==> x !in s && NoDuplicates(s)
  {
    var xs := [x] + s;
    assert xs[0] == x;
    assert forall i :: 0 <= i < |s| ==> xs[i + 1] == s[i];
    if NoDuplicates(xs) {
      forall i | 0 <= i < |s| ensures s[i] != x {
        assert xs[i + 1] == s[i];
      }
      forall i, j | 0 <= i < j < |s| ensures s[i] != s[j] {
        assert xs[i + 1] == s[i] && xs[j + 1] == s[j];
      }
    }
  }

  /** Every candidate is a walked path. */
  lemma {:induction false} CandidatesVisited(walk: seq<WalkItem>, p: string)
    requires p in Candidates(walk)
    ensures p in VisitedPaths(walk)
  {
    var rest := walk[1..];
    if p !in Candidates(rest) {
      assert walk[0].Visited? && p == walk[0].entry.path;
    } else {
      CandidatesVisited(rest, p);
    }
  }

  /** A walk that yields each path once gives each candidate once. */
  lemma {:induction false} CandidatesOnce(walk: seq<WalkItem>)
    requires NoDuplicates(VisitedPaths(walk))
    ensures NoDuplicates(Candidates(walk))
  {
    if walk != [] {
      var rest := walk[1..];
      if walk[0].Visited? {
        var p := walk[0].entry.path;
        assert VisitedPaths(walk) == [p] + VisitedPaths(rest);
        NoDuplicatesCons(p, VisitedPaths(rest));
        CandidatesOnce(rest);
        if IsCandidate(walk[0].entry) {
          if p in Candidates(rest) {
            CandidatesVisited(rest, p);
          }
          NoDuplicatesCons(p, Candidates(rest));
        }
      } else {
        assert VisitedPaths(walk) == VisitedPaths(rest);
        CandidatesOnce(rest);
      }
    }
  }

  /** The extension is compared case-insensitively: "a.TXT" is a candidate. */
  lemma UpperCaseExtensionAccepted(path: string)
    ensures IsCandidate(Entry(path, true, [Char('a'), Dot, Char('T'), Char('X'), Char('T')]))
  {
    var txt := [Char('T'), Char('X'), Char('T')];
    assert [Char('a'), Dot, Char('T'), Char('X'), Char('T')] == [Char('a'), Dot] + txt;
    assert Extension([Char('a'), Dot] + txt) == Some(txt);
    assert ToStr(txt).Some?;
    assert txt[0] == Char('T') && txt[1] == Char('X') && txt[2] == Char('T');
    assert ToStr(txt).value == "TXT";
    assert Lower("TXT") == "txt" == ValidExtensions[0];
  }

  /** KELVIN SIGN lower-cases to 'k', so an extension spelled with it and 't'
      is taken for "kt". */
  lemma KelvinExtensionAccepted(path: string)
    ensures IsCandidate(Entry(path, true, [Char('b'), Dot, Char(KelvinSign), Char('t')]))
  {
    var kt := [Char(KelvinSign), Char('t')];
    assert [Char('b'), Dot, Char(KelvinSign), Char('t')] == [Char('b'), Dot] + kt;
    assert Extension([Char('b'), Dot] + kt) == Some(kt);
    assert ToStr(kt).Some?;
    assert kt[0] == Char(KelvinSign) && kt[1] == Char('t');
    assert ToStr(kt).value == [KelvinSign, 't'];
    assert Lower([KelvinSign, 't']) == "kt";
  }

  /** Excluded: a directory, a name whose only dot leads it, a name without
      a dot, and an extension that is not Unicode. */
  lemma NonCandidates(path: string)
    ensures !IsCandidate(Entry(path, false, [Char('a'), Dot, Char('t'), Char('x'), Char('t')]))
    ensures !IsCandidate(Entry(path, true, [Dot, Char('m'), Char('d')]))
    ensures !IsCandidate(Entry(path, true, [Char('m'), Char('d')]))
    ensures !IsCandidate(Entry(path, true, [Char('a'), Dot, Char('k'), Invalid(0xFF)]))
  {
    assert LastDot([Dot, Char('m'), Char('d')]) == Some(0);
    assert Extension([Char('a'), Dot, Char('k'), Invalid(0xFF)]) == Some([Char('k'), Invalid(0xFF)]);
  }
}
