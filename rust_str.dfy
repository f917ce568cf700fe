/** The few operations of Rust's `str` that the lookup is built from, over
    `string` (a sequence of `char`). Byte offsets and character offsets are
    the same thing here: the model treats text as ASCII. */
module RustStr {

  import opened Wrappers

  /** `char::is_whitespace`: the Unicode White_Space property. */
  predicate IsWhitespace(c: char) {
    ('\t' <= c <= '\r') || c == ' ' || c == '\U{85}' || c == '\U{A0}' || c == '\U{1680}'
    || ('\U{2000}' <= c <= '\U{200A}') || c == '\U{2028}' || c == '\U{2029}'
    || c == '\U{202F}' || c == '\U{205F}' || c == '\U{3000}'
  }

  /** `str::trim_start`: drops the leading whitespace. */
  function TrimStart(s: string): (r: string)
    ensures |r| <= |s| && r == s[|s| - |r|..]
    ensures forall k :: 0 <= k < |s| - |r| ==> IsWhitespace(s[k])
    ensures r == [] || !IsWhitespace(r[0])
    decreases |s|
  {
    if s != [] && IsWhitespace(s[0]) then TrimStart(s[1..]) else s
  }

  /** `str::trim_end`: drops the trailing whitespace. */
  function TrimEnd(s: string): (r: string)
    ensures |r| <= |s| && r == s[..|r|]
    ensures forall k :: |r| <= k < |s| ==> IsWhitespace(s[k])
    ensures r == [] || !IsWhitespace(r[|r| - 1])
    decreases |s|
  {
    if s != [] && IsWhitespace(s[|s| - 1]) then TrimEnd(s[..|s| - 1]) else s
  }

  /** `str::trim`. */
  function Trim(s: string): string {
    TrimEnd(TrimStart(s))
  }

  /** `s.trim().is_empty()`, the test that skips an identifier. */
  predicate IsBlank(s: string) {
    Trim(s) == []
  }

  /** A piece is blank exactly when every one of its characters is whitespace. */
  lemma BlankIffAllWhitespace(s: string)
    ensures IsBlank(s) <==> forall k :: 0 <= k < |s| ==> IsWhitespace(s[k])
  {
    if forall k :: 0 <= k < |s| ==> IsWhitespace(s[k]) {
      AllWhitespaceTrimsAway(s);
    }
  }

  lemma {:induction false} AllWhitespaceTrimsAway(s: string)
    requires forall k :: 0 <= k < |s| ==> IsWhitespace(s[k])
    ensures TrimStart(s) == []
    decreases |s|
  {
    if s != [] {
      AllWhitespaceTrimsAway(s[1..]);
    }
  }

  /** `str::find(char)`: the index of the first occurrence of `c`. */
  function FindChar(s: string, c: char): (r: Option<nat>)
    ensures r.None? <==> c !in s
    ensures r.Some? ==> r.value < |s| && s[r.value] == c && c !in s[..r.value]
    decreases |s|
  {
    if s == [] then None
    else if s[0] == c then Some(0)
    else match FindChar(s[1..], c)
      case None => None
      case Some(k) => assert s[..k + 1] == [s[0]] + s[1..][..k]; Some(k + 1)
  }

  /** The first occurrence is the only index holding `c` with no `c` before it. */
  lemma FindCharUnique(s: string, c: char, k: nat)
    requires k < |s| && s[k] == c && c !in s[..k]
    ensures FindChar(s, c) == Some(k)
  {
    assert s[..k + 1] == s[..k] + [c];
    var r := FindChar(s, c);
    assert c in s[..k + 1];
    assert forall i :: 0 <= i < k ==> s[i] != c by {
      forall i | 0 <= i < k ensures s[i] != c {
        assert s[i] == s[..k][i];
      }
    }
    assert forall i :: 0 <= i < r.value ==> s[i] != c by {
      forall i | 0 <= i < r.value ensures s[i] != c {
        assert s[i] == s[..r.value][i];
      }
    }
  }

  /** `pat` occurs in `s` starting at index `i`. */
  predicate OccursAt(s: string, pat: string, i: nat) {
    i + |pat| <= |s| && s[i..i + |pat|] == pat
  }

  /** The first occurrence of `pat` in `s` at or after `from`. */
  function FindFrom(s: string, pat: string, from: nat): (r: Option<nat>)
    requires from <= |s|
    ensures r.Some? ==> from <= r.value && OccursAt(s, pat, r.value)
    ensures r.Some? ==> forall j :: from <= j < r.value ==> !OccursAt(s, pat, j)
    ensures r.None? ==> forall j :: from <= j ==> !OccursAt(s, pat, j)
    decreases |s| - from
  {
    if from + |pat| > |s| then None
    else if s[from..from + |pat|] == pat then Some(from)
    else if from == |s| then None
    else FindFrom(s, pat, from + 1)
  }

  /** `str::find(&str)`: the index of the first occurrence of `pat`
      (`Some(0)` for the empty pattern). */
  function Find(s: string, pat: string): Option<nat> {
    FindFrom(s, pat, 0)
  }

  /** The first occurrence is the only index that is an occurrence with none before it. */
  lemma FindIsFirstOccurrence(s: string, pat: string, i: nat)
    requires OccursAt(s, pat, i)
    requires forall j :: 0 <= j < i ==> !OccursAt(s, pat, j)
    ensures Find(s, pat) == Some(i)
  {
    assert OccursAt(s, pat, i);
  }

  /** `str::contains(&str)`. */
  predicate Contains(s: string, pat: string) {
    Find(s, pat).Some?
  }

  /** `str::starts_with(&str)`. */
  predicate StartsWith(s: string, prefix: string) {
    |prefix| <= |s| && s[..|prefix|] == prefix
  }

  /** The inverse of `Split`: the pieces glued back with the separator. */
  function Join(parts: seq<string>, sep: char): string
    decreases |parts|
  {
    if parts == [] then []
    else if |parts| == 1 then parts[0]
    else parts[0] + [sep] + Join(parts[1..], sep)
  }

  /** `str::split(char)` collected into a vector: never empty (`""` splits
      to `[""]`), and a single piece exactly when the separator is absent. */
  function Split(s: string, sep: char): (parts: seq<string>)
    ensures |parts| >= 1
    ensures |parts| == 1 <==> sep !in s
    decreases |s|
  {
    match FindChar(s, sep)
    case None => [s]
    case Some(k) =>
      var rest := Split(s[k + 1..], sep);
      assert s[k] in s;
      [s[..k]] + rest
  }

  /** No piece of a split holds the separator. */
  lemma {:induction false} SplitPiecesClean(s: string, sep: char)
    ensures forall i :: 0 <= i < |Split(s, sep)| ==> sep !in Split(s, sep)[i]
    decreases |s|
  {
    match FindChar(s, sep)
    case None =>
    case Some(k) =>
      SplitPiecesClean(s[k + 1..], sep);
      var rest := Split(s[k + 1..], sep);
      assert Split(s, sep) == [s[..k]] + rest;
  }

  /** The pieces of a split glue back to the input: empty pieces are kept. */
  lemma {:induction false} SplitJoinsBack(s: string, sep: char)
    ensures Join(Split(s, sep), sep) == s
    decreases |s|
  {
    match FindChar(s, sep)
    case None =>
    case Some(k) =>
      var head, tail := s[..k], s[k + 1..];
      SplitJoinsBack(tail, sep);
      SplitAt(s, sep, k);
      JoinCons(head, Split(tail, sep), sep);
      Reassemble(s, k);
  }

  lemma Reassemble(s: string, k: nat)
    requires k < |s|
    ensures s[..k] + [s[k]] + s[k + 1..] == s
  {
  }

  /** Joining a piece in front of at least one more puts a separator between. */
  lemma JoinCons(head: string, rest: seq<string>, sep: char)
    requires rest != []
    ensures Join([head] + rest, sep) == head + [sep] + Join(rest, sep)
  {
    assert ([head] + rest)[0] == head;
    assert ([head] + rest)[1..] == rest;
  }

  /** The first piece is the prefix up to the first separator, or the whole
      input when there is none. */
  lemma SplitFirstPiece(s: string, sep: char)
    ensures |Split(s, sep)[0]| <= |s| && s[..|Split(s, sep)[0]|] == Split(s, sep)[0]
    ensures |Split(s, sep)[0]| == |s| || s[|Split(s, sep)[0]|] == sep
  {
  }

  /** The first piece of a split runs up to the first separator, or to the
      end when there is none. */
  lemma FirstPiece(s: string, sep: char, k: nat)
    requires k <= |s| && sep !in s[..k]
    requires k == |s| || s[k] == sep
    ensures Split(s, sep)[0] == s[..k]
  {
    SplitFirstPiece(s, sep);
    var first := Split(s, sep)[0];
    assert forall i :: 0 <= i < k ==> s[i] != sep by {
      forall i | 0 <= i < k ensures s[i] != sep {
        assert s[i] == s[..k][i];
      }
    }
    assert forall i :: 0 <= i < |first| ==> s[i] != sep by {
      forall i | 0 <= i < |first| ensures s[i] != sep {
        assert s[i] == first[i];
      }
    }
  }

  /** The first piece of a split is at least as long as a separator-free prefix. */
  lemma FirstPieceLong(s: string, sep: char, k: nat)
    requires k <= |s| && sep !in s[..k]
    ensures |Split(s, sep)[0]| >= k
  {
    SplitFirstPiece(s, sep);
    assert forall i :: 0 <= i < k ==> s[i] != sep by {
      forall i | 0 <= i < k ensures s[i] != sep {
        assert s[i] == s[..k][i];
      }
    }
  }

  /** A split that passes a separator at `k` goes on with the split of the rest. */
  lemma SplitAt(s: string, sep: char, k: nat)
    requires k < |s| && s[k] == sep && sep !in s[..k]
    ensures Split(s, sep) == [s[..k]] + Split(s[k + 1..], sep)
  {
    FindCharUnique(s, sep, k);
  }

  /** Splitting what `Join` glued gives the pieces back: `Split` and `Join`
      are inverse on separator-free pieces. */
  lemma {:induction false} SplitJoin(parts: seq<string>, sep: char)
    requires |parts| >= 1
    requires forall i :: 0 <= i < |parts| ==> sep !in parts[i]
    ensures Split(Join(parts, sep), sep) == parts
    decreases |parts|
  {
    if |parts| > 1 {
      var s := Join(parts, sep);
      var tail := Join(parts[1..], sep);
      var k := |parts[0]|;
      assert s == parts[0] + [sep] + tail;
      assert s[..k] == parts[0];
      assert s[k + 1..] == tail;
      SplitAt(s, sep, k);
      SplitJoin(parts[1..], sep);
      assert parts == [parts[0]] + parts[1..];
    }
  }

  /** Drops one `'\r'` that ended a line terminated by `"\r\n"`. */
  function StripCr(line: string): (r: string)
    ensures line != [] && line[|line| - 1] == '\r' ==> line == r + ['\r']
    ensures line == [] || line[|line| - 1] != '\r' ==> r == line
  {
    if line != [] && line[|line| - 1] == '\r' then line[..|line| - 1] else line
  }

  /** `str::lines`: the `'\n'`-separated lines, each line that ended in
      `"\r\n"` without its `'\r'`, and no final empty line after a trailing
      `'\n'`. */
  function Lines(s: string): (lines: seq<string>)
    ensures forall i :: 0 <= i < |lines| ==> '\n' !in lines[i]
  {
    SplitPiecesClean(s, '\n');
    LinesOfPieces(Split(s, '\n'))
  }

  /** The lines made of the pieces of a split on `'\n'`: every piece but the
      last was ended by a `'\n'`; the last one counts only when non-empty. */
  function LinesOfPieces(pieces: seq<string>): (lines: seq<string>)
    requires |pieces| >= 1
    requires forall i :: 0 <= i < |pieces| ==> '\n' !in pieces[i]
    ensures forall i :: 0 <= i < |lines| ==> '\n' !in lines[i]
    decreases |pieces|
  {
    if |pieces| == 1 then (if pieces[0] == [] then [] else [pieces[0]])
    else
      var head := StripCr(pieces[0]);
      assert forall c :: c in head ==> c in pieces[0];
      [head] + LinesOfPieces(pieces[1..])
  }

  /** A line ended by `'\n'` comes out first, without the `'\r'` of a
      `"\r\n"` ending, and the lines of the rest follow. */
  lemma LinesCons(a: string, b: string)
    requires '\n' !in a
    ensures Lines(a + "\n" + b) == [StripCr(a)] + Lines(b)
  {
    var s := a + "\n" + b;
    assert s[|a|] == '\n' && s[..|a|] == a && s[|a| + 1..] == b;
    SplitAt(s, '\n', |a|);
    SplitPiecesClean(b, '\n');
    var pieces := [a] + Split(b, '\n');
    assert pieces[1..] == Split(b, '\n');
  }

  /** Text without a `'\n'` is one line, or none when it is empty. */
  lemma LinesLast(a: string)
    requires '\n' !in a
    ensures Lines(a) == if a == [] then [] else [a]
  {
    FirstPiece(a, '\n', |a|);
  }

  /** `"a\r\nb\n"` has the lines `a` and `b`; `"a\r"` keeps its `'\r'`. */
  lemma LinesExample()
    ensures Lines("a\r" + "\n" + ("b" + "\n" + "")) == ["a", "b"]
    ensures Lines("a\r") == ["a\r"]
  {
    LinesCons("a\r", "b" + "\n" + "");
    assert StripCr("a\r") == "a";
    assert StripCr("b") == "b";
    LinesCons("b", "");
    LinesLast("");
    LinesLast("a\r");
  }
}
