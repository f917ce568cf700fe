/** The textual scan of one `mimeapps.list` file ("Default Application"
    section of the freedesktop mime-apps specification, read without an INI
    parser): find the query anywhere in the text, bound it to its line, cut
    the line at its first `=`, and split what follows on `;`. */
module MimeappsList {

  import opened Wrappers
  import opened RustStr

  const Header := "[Default Applications]"

  /** What the scan finds for a query: nothing to go on (no section header
      anywhere, or the query nowhere), a bounded line without `=`, or the
      text after that `=` up to the end of the line. */
  datatype Entry = NoEntry | Malformed | Value(value: string)

  /** The index of the first `'\n'` at or after `from`, or the length of the
      text when there is none. */
  function LineEnd(text: string, from: nat): (e: nat)
    requires from <= |text|
    ensures from <= e <= |text|
    ensures '\n' !in text[from..e]
    ensures e == |text| || text[e] == '\n'
  {
    match FindChar(text[from..], '\n')
    case None => |text|
    case Some(k) => assert text[from..][..k] == text[from..from + k]; from + k
  }

  /** Any end that is a `'\n'` or the end of the text, with no `'\n'` before
      it from `from` on, is the line end. */
  lemma LineEndUnique(text: string, from: nat, e: nat)
    requires from <= e <= |text|
    requires '\n' !in text[from..e]
    requires e == |text| || text[e] == '\n'
    ensures LineEnd(text, from) == e
  {
    var f := LineEnd(text, from);
    assert forall i :: from <= i < e ==> text[i] != '\n' by {
      forall i | from <= i < e ensures text[i] != '\n' {
        assert text[i] == text[from..e][i - from];
      }
    }
    assert forall i :: from <= i < f ==> text[i] != '\n' by {
      forall i | from <= i < f ensures text[i] != '\n' {
        assert text[i] == text[from..f][i - from];
      }
    }
  }

  /** The loop that moves `end_idx` to the first `'\n'` after the match. */
  method FindLineEnd(text: string, idx: nat) returns (endIdx: nat)
    requires idx <= |text|
    ensures endIdx == LineEnd(text, idx)
  {
    endIdx := |text|;
    var cidx := 0;
    while cidx < |text| - idx
      invariant 0 <= cidx <= |text| - idx
      invariant '\n' !in text[idx..idx + cidx]
    {
      if text[idx + cidx] == '\n' {
        endIdx := cidx + idx;
        LineEndUnique(text, idx, endIdx);
        return;
      }
      assert text[idx..idx + cidx + 1] == text[idx..idx + cidx] + [text[idx + cidx]];
      cidx := cidx + 1;
    }
    LineEndUnique(text, idx, endIdx);
  }

  /** The entry on a bounded line: malformed without `=`, otherwise what
      follows its first `=`. */
  function LineEntry(line: string): (e: Entry)
    ensures e == Malformed <==> '=' !in line
    ensures e != NoEntry
  {
    match FindChar(line, '=')
    case None => Malformed
    case Some(k) => Value(line[k + 1..])
  }

  /** The entry for `query` in `text`: there is one only when both the
      header and the query occur, and a value never runs past the line of
      the query. */
  function EntryOf(text: string, query: string): (e: Entry)
    ensures e != NoEntry ==> Contains(text, Header) && Contains(text, query)
    ensures e.Value? ==> '\n' !in e.value
  {
    var idx := Find(text, query);
    if !Contains(text, Header) || idx.None? then NoEntry
    else
      var line := text[idx.value..LineEnd(text, idx.value)];
      var e := LineEntry(line);
      assert e.Value? ==> forall c :: c in e.value ==> c in line;
      e
  }

  /** The scan of lib.rs:200-226 and utilities.rs:156-172, with the line
      bound computed as intended. */
  method ScanEntry(text: string, query: string) returns (e: Entry)
    ensures e == EntryOf(text, query)
  {
    var idx := Find(text, query);
    if !Contains(text, Header) || idx.None? {
      return NoEntry;
    }
    var start := idx.value;
    var end := FindLineEnd(text, start);
    var line := text[start..end];
    var eq := FindChar(line, '=');
    if eq.None? {
      return Malformed;
    }
    return Value(line[eq.value + 1..]);
  }

  /** The identifiers of an entry's value: its pieces split on `;`, empty
      and blank ones included, in order. */
  function Identifiers(value: string): (ids: seq<string>)
    ensures |ids| >= 1 && Join(ids, ';') == value
    ensures forall i :: 0 <= i < |ids| ==> ';' !in ids[i]
  {
    SplitPiecesClean(value, ';');
    SplitJoinsBack(value, ';');
    Split(value, ';')
  }

  /** The scan finds nothing exactly when the header or the query is absent. */
  lemma NoEntryIff(text: string, query: string)
    ensures EntryOf(text, query) == NoEntry <==> !Contains(text, Header) || !Contains(text, query)
  {
  }

  /** With header and query present, the entry is malformed exactly when the
      line from the first occurrence of the query to the next `'\n'` (or the
      end of the text) holds no `=`. */
  lemma MalformedIff(text: string, query: string, idx: nat)
    requires Contains(text, Header)
    requires OccursAt(text, query, idx)
    requires forall j :: 0 <= j < idx ==> !OccursAt(text, query, j)
    ensures EntryOf(text, query) == Malformed <==> '=' !in text[idx..LineEnd(text, idx)]
  {
    FindIsFirstOccurrence(text, query, idx);
  }

  /** The value is exactly the text after the first `=` that follows the first
      occurrence of the query, up to the end of that line: for any `idx`, `s`
      and `e` that have those meanings, the scan returns `text[s..e]`. */
  lemma ValueAt(text: string, query: string, idx: nat, s: nat, e: nat)
    requires Contains(text, Header)
    requires OccursAt(text, query, idx)
    requires forall j :: 0 <= j < idx ==> !OccursAt(text, query, j)
    requires idx < s <= e <= |text|
    requires text[s - 1] == '=' && '=' !in text[idx..s - 1]
    requires '\n' !in text[idx..e] && (e == |text| || text[e] == '\n')
    ensures EntryOf(text, query) == Value(text[s..e])
  {
    FindIsFirstOccurrence(text, query, idx);
    LineEndUnique(text, idx, e);
    EqualsSignAt(text, idx, s, e);
    assert text[idx..e][s - idx..] == text[s..e];
  }

  /** The first `=` of the line `text[idx..e]` is the one at `s - 1`. */
  lemma EqualsSignAt(text: string, idx: nat, s: nat, e: nat)
    requires idx < s <= e <= |text|
    requires text[s - 1] == '=' && '=' !in text[idx..s - 1]
    ensures FindChar(text[idx..e], '=') == Some(s - 1 - idx)
  {
    var line := text[idx..e];
    assert line[..s - 1 - idx] == text[idx..s - 1];
    FindCharUnique(line, '=', s - 1 - idx);
  }

  /** In a text made of the section header and a `text/html=` line, the
      header is present and the query first occurs at the start of the
      second line, with its `=` right after it. */
  lemma QueryOnSecondLine(value: string)
    ensures var text := Header + "\n" + "text/html=" + value;
      Contains(text, Header) && Find(text, "text/html") == Some(23) && text[32] == '=' && text[33..] == value
  {
    var text := Header + "\n" + "text/html=" + value;
    assert text[..|Header|] == Header;
    assert Contains(text, Header) by {
      FindIsFirstOccurrence(text, Header, 0);
    }
    var prefix := Header + "\ntext";
    assert '/' !in prefix;
    assert text[..27] == prefix;
    assert text[23..32] == "text/html";
    forall j | 0 <= j < 23 ensures !OccursAt(text, "text/html", j) {
      assert text[j + 4] == prefix[j + 4];
      assert text[j..j + 9][4] == text[j + 4];
    }
    FindIsFirstOccurrence(text, "text/html", 23);
  }

  /** A `text/html=` line ended by a `'\n'` right after the section header
      gives the rest of that line as the value. */
  lemma EndedSecondLine(value: string, more: string)
    requires '\n' !in value
    ensures EntryOf(Header + "\n" + "text/html=" + (value + "\n" + more), "text/html") == Value(value)
  {
    var text := Header + "\n" + "text/html=" + (value + "\n" + more);
    QueryOnSecondLine(value + "\n" + more);
    var e := 33 + |value|;
    assert text[33..e] == value;
    assert text[e] == '\n';
    assert text[23..e] == text[23..33] + text[33..e];
    ValueAt(text, "text/html", 23, 33, e);
  }

  /** `text/html=foo-browser.desktop;bar.desktop` on the line after the
      section header gives the value `foo-browser.desktop;bar.desktop`. */
  lemma DefaultApplicationsExample()
    ensures EntryOf(Header + "\n" + "text/html=" + ("foo-browser.desktop;bar.desktop" + "\n" + ""), "text/html")
      == Value("foo-browser.desktop;bar.desktop")
  {
    EndedSecondLine("foo-browser.desktop;bar.desktop", "");
  }

  /** The line bound as lib.rs:209-215 and utilities.rs:165-171 compute it:
      the first `'\n'` at or after `from`, but, when there is none, the
      length of the rest of the text rather than the index of its end. */
  function LineEndAsWritten(text: string, from: nat): (e: nat)
    requires from <= |text|
    ensures '\n' in text[from..] ==> e == LineEnd(text, from)
    ensures '\n' !in text[from..] ==> e == |text| - from
  {
    match FindChar(text[from..], '\n')
    case None => |text| - from
    case Some(k) => from + k
  }

  /** A `'\n'` follows the first occurrence of the query, if there is one. */
  predicate LineEnded(text: string, query: string) {
    Find(text, query).Some? ==> '\n' in text[Find(text, query).value..]
  }

  /** The scan with that bound: `None` where the slice from the match to the
      bound is reversed, which panics in Rust; that happens only on a match
      with no `'\n'` after it. */
  function EntryAsWritten(text: string, query: string): (r: Option<Entry>)
    ensures r.None? ==> Contains(text, Header) && Contains(text, query) && !LineEnded(text, query)
  {
    var idx := Find(text, query);
    if !Contains(text, Header) || idx.None? then Some(NoEntry)
    else
      var start := idx.value;
      var end := LineEndAsWritten(text, start);
      if end < start then None else Some(LineEntry(text[start..end]))
  }

  /** The two bounds agree whenever a `'\n'` follows the match. */
  lemma AsWrittenAgreesOnEndedLines(text: string, query: string)
    requires LineEnded(text, query)
    ensures EntryAsWritten(text, query) == Some(EntryOf(text, query))
  {
  }

  /** An entry on a last line without a trailing `'\n'`, after the header
      line: the intended scan finds its whole value, while the scan as
      written bounds the line at `10 + |value|`, the length of the rest of
      the text. Below the match (a value shorter than 13) it slices
      backwards and panics; short of the `=` it reports a malformed entry;
      past it, it drops the last 23 characters of the value. */
  lemma UnendedLastLine(value: string)
    requires '\n' !in value
    ensures EntryOf(Header + "\n" + "text/html=" + value, "text/html") == Value(value)
    ensures |value| < 13 ==> EntryAsWritten(Header + "\n" + "text/html=" + value, "text/html") == None
    ensures 13 <= |value| < 23 ==>
      EntryAsWritten(Header + "\n" + "text/html=" + value, "text/html") == Some(Malformed)
    ensures 23 <= |value| ==>
      EntryAsWritten(Header + "\n" + "text/html=" + value, "text/html") == Some(Value(value[..|value| - 23]))
  {
    var text := Header + "\n" + "text/html=" + value;
    UnendedSecondLine(value);
    ValueAt(text, "text/html", 23, 33, |text|);
    AsWrittenUnended(text, "text/html", 23, 33);
    if 33 <= |text| - 23 {
      assert text[33..|text| - 23] == value[..|value| - 23];
    }
  }

  /** The facts about such a text that both scans depend on. */
  lemma UnendedSecondLine(value: string)
    requires '\n' !in value
    ensures var text := Header + "\n" + "text/html=" + value;
      Contains(text, Header) && Find(text, "text/html") == Some(23) && |text| == 33 + |value|
      && text[32] == '=' && '=' !in text[23..32] && '\n' !in text[23..] && text[33..] == value
  {
    var text := Header + "\n" + "text/html=" + value;
    QueryOnSecondLine(value);
    var line := "text/html=" + value;
    DropPrefix(Header + "\n", line);
    assert text[23..] == line;
    assert text[23..32] == line[..9] == "text/html";
    assert '\n' !in line;
  }

  lemma DropPrefix(p: string, q: string)
    ensures (p + q)[|p|..] == q
  {
  }

  /** The scan as written on a match with no `'\n'` after it, whose line
      has its first `=` at `s - 1`: the bound `|text| - idx` falls before the
      match (a panic), before the `=` (a malformed entry), or inside the
      value (a truncated one). */
  lemma AsWrittenUnended(text: string, query: string, idx: nat, s: nat)
    requires Contains(text, Header) && Find(text, query) == Some(idx)
    requires idx < s <= |text| && text[s - 1] == '=' && '=' !in text[idx..s - 1]
    requires '\n' !in text[idx..]
    ensures |text| - idx < idx ==> EntryAsWritten(text, query) == None
    ensures idx <= |text| - idx < s ==> EntryAsWritten(text, query) == Some(Malformed)
    ensures s <= |text| - idx ==> EntryAsWritten(text, query) == Some(Value(text[s..|text| - idx]))
  {
    var end := |text| - idx;
    assert LineEndAsWritten(text, idx) == end;
    if idx <= end < s {
      assert text[idx..end] == text[idx..s - 1][..end - idx];
    } else if s <= end {
      EqualsSignAt(text, idx, s, end);
      assert text[idx..end][s - idx..] == text[s..end];
    }
  }

  /** The shortest instance: `text/html=a.desktop` as the last line panics. */
  lemma UnendedLastLinePanics()
    ensures EntryOf(Header + "\n" + "text/html=" + "a.desktop", "text/html") == Value("a.desktop")
    ensures EntryAsWritten(Header + "\n" + "text/html=" + "a.desktop", "text/html") == None
  {
    UnendedLastLine("a.desktop");
  }

  /** A value without `;` is a single identifier. */
  lemma SingleIdentifier(value: string)
    requires ';' !in value
    ensures Identifiers(value) == [value]
  {
    SplitJoin([value], ';');
  }

  /** That value names `foo-browser.desktop`, then `bar.desktop`. */
  lemma IdentifiersExample()
    ensures Identifiers("foo-browser.desktop" + ";" + "bar.desktop") == ["foo-browser.desktop", "bar.desktop"]
  {
    var a, b := "foo-browser.desktop", "bar.desktop";
    assert ';' !in a && ';' !in b;
    assert Join([a, b], ';') == a + ";" + b;
    SplitJoin([a, b], ';');
  }
}
