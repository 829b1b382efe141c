/** Line splitting of a file's content, as Rust's `str::lines` does it. */
module LineSplit {

  /** Index of the first '\n' of s, or |s| when there is none. */
  function NewlineIndex(s: string): (k: nat)
    ensures k <= |s|
    ensures k < |s| ==> s[k] == '\n'
    ensures forall j :: 0 <= j < k ==> s[j] != '\n'
  {
    if s == [] || s[0] == '\n' then 0 else 1 + NewlineIndex(s[1..])
  }

  /** Drops one trailing '\r'. */
  function StripCr(s: string): (r: string)
    ensures r <= s && |s| - 1 <= |r|
    ensures |r| < |s| <==> |s| > 0 && s[|s| - 1] == '\r'
  {
    if |s| > 0 && s[|s| - 1] == '\r' then s[..|s| - 1] else s
  }

  /** `str::lines`: the text is cut after every '\n'; each piece loses its
      '\n' and then a '\r' just before it. The last piece may lack a '\n'
      and then keeps a trailing '\r'; an empty text has no lines, and a
      final '\n' does not start an empty last line. */
  function Lines(text: string): (r: seq<string>)
    ensures forall i :: 0 <= i < |r| ==> '\n' !in r[i]
    ensures |r| <= |text|
    decreases |text|
  {
    if text == [] then []
    else
      var k := NewlineIndex(text);
      if k == |text| then [text]
      else [StripCr(text[..k])] + Lines(text[k + 1..])
  }

  /** Lines written one after another, each followed by the terminator eol. */
  function Terminated(ls: seq<string>, eol: string): string {
    if ls == [] then [] else ls[0] + eol + Terminated(ls[1..], eol)
  }

  /** A line the splitter gives back unchanged when it is followed by "\n" or
      "\r\n": it holds no '\n', and before a bare "\n" it does not end in
      '\r' (that '\r' would be taken for part of the terminator). */
  predicate RoundTrips(l: string, eol: string) {
    '\n' !in l && (eol == "\n" ==> !(|l| > 0 && l[|l| - 1] == '\r'))
  }

  /** The first '\n' is where the text holds a '\n' with none before it. */
  lemma NewlineIndexAt(s: string, c: nat)
    requires c < |s| && s[c] == '\n'
    requires forall j :: 0 <= j < c ==> s[j] != '\n'
    ensures NewlineIndex(s) == c
  {
  }

  /** In a line followed by its terminator, the first '\n' is the
      terminator's. */
  lemma NewlineOfTerminated(l: string, eol: string, rest: string)
    requires eol == "\n" || eol == "\r\n"
    requires RoundTrips(l, eol)
    ensures NewlineIndex(l + eol + rest) == |l| + |eol| - 1
  {
    var text := l + eol + rest;
    var cut := |l| + |eol| - 1;
    forall j | 0 <= j < cut ensures text[j] != '\n' {
      if j < |l| {
        assert text[j] == l[j];
      } else {
        assert text[j] == '\r';
      }
    }
    NewlineIndexAt(text, cut);
  }

  /** A line followed by its terminator is split off as the first line. */
  lemma LinesStep(l: string, eol: string, rest: string)
    requires eol == "\n" || eol == "\r\n"
    requires RoundTrips(l, eol)
    ensures Lines(l + eol + rest) == [l] + Lines(rest)
  {
    var text := l + eol + rest;
    var k := |l| + |eol| - 1;
    NewlineOfTerminated(l, eol, rest);
    assert text[..k] == l + eol[..|eol| - 1];
    assert StripCr(text[..k]) == l;
    assert text[k + 1..] == rest;
  }

  /** The first line and its terminator start the joined text. */
  lemma TerminatedCons(ls: seq<string>, eol: string, last: string)
    requires ls != []
    ensures Terminated(ls, eol) + last == ls[0] + eol + (Terminated(ls[1..], eol) + last)
  {
  }

  /** Appending after a first element. */
  lemma ConsAppend<T>(s: seq<T>, t: seq<T>)
    requires s != []
    ensures s + t == [s[0]] + (s[1..] + t)
  {
    assert s == [s[0]] + s[1..];
  }

  /** Text without a '\n' is one line, or none when it is empty. */
  lemma LinesOfLast(last: string)
    requires '\n' !in last
    ensures Lines(last) == if last == [] then [] else [last]
  {
    if last != [] {
      assert NewlineIndex(last) == |last|;
    }
  }

  /** Splitting undoes joining: lines terminated by "\n" or by "\r\n", with
      an optional unterminated last line, split back into the same lines. */
  lemma {:induction false} LinesOfTerminated(ls: seq<string>, eol: string, last: string)
    requires eol == "\n" || eol == "\r\n"
    requires forall i :: 0 <= i < |ls| ==> RoundTrips(ls[i], eol)
    requires '\n' !in last
    ensures Lines(Terminated(ls, eol) + last) == ls + (if last == [] then [] else [last])
  {
    if ls == [] {
      assert Terminated(ls, eol) + last == last;
      LinesOfLast(last);
    } else {
      var l := ls[0];
      var tail := ls[1..];
      var rest := Terminated(tail, eol) + last;
      var lastLines := if last == [] then [] else [last];
      TerminatedCons(ls, eol, last);
      LinesStep(l, eol, rest);
      LinesOfTerminated(tail, eol, last);
      assert Lines(rest) == tail + lastLines;
      ConsAppend(ls, lastLines);
    }
  }
}
