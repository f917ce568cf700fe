/** The post-processing of `query_mime_info`: the output of the MIME-type
    command loses its trailing line feeds (and only those, whatever the
    helper's name says about whitespace). */
module MimeInfo {

  newtype byte = x: int | 0 <= x < 256

  const LineFeed: byte := 10

  /** The bytes with every trailing line feed removed: a prefix of the input,
      followed in the input only by line feeds, not itself ending in one. */
  function TrailingNewlinesDropped(v: seq<byte>): (r: seq<byte>)
    ensures |r| <= |v| && r == v[..|r|]
    ensures forall k :: |r| <= k < |v| ==> v[k] == LineFeed
    ensures r == [] || r[|r| - 1] != LineFeed
    decreases |v|
  {
    if v != [] && v[|v| - 1] == LineFeed then TrailingNewlinesDropped(v[..|v| - 1]) else v
  }

  /** `drop_right_whitespace`: pop while the last byte is a line feed. */
  method DropRightWhitespace(v: seq<byte>) returns (r: seq<byte>)
    ensures r == TrailingNewlinesDropped(v)
  {
    r := v;
    while |r| > 0 && r[|r| - 1] == LineFeed
      invariant TrailingNewlinesDropped(r) == TrailingNewlinesDropped(v)
      decreases |r|
    {
      r := r[..|r| - 1];
    }
  }

  /** The result is the only prefix with those three properties. */
  lemma DroppedUnique(v: seq<byte>, n: nat)
    requires n <= |v|
    requires forall k :: n <= k < |v| ==> v[k] == LineFeed
    requires n == 0 || v[n - 1] != LineFeed
    ensures TrailingNewlinesDropped(v) == v[..n]
  {
    var r := TrailingNewlinesDropped(v);
    assert n <= |r| by {
      if n > 0 {
        assert v[n - 1] != LineFeed;
      }
    }
    assert |r| <= n by {
      if |r| > 0 {
        assert v[|r| - 1] == r[|r| - 1];
      }
    }
  }

  /** Dropping twice drops nothing more. */
  lemma DropIdempotent(v: seq<byte>)
    ensures TrailingNewlinesDropped(TrailingNewlinesDropped(v)) == TrailingNewlinesDropped(v)
  {
    var r := TrailingNewlinesDropped(v);
    DroppedUnique(r, |r|);
    assert r[..|r|] == r;
  }

  /** Line feeds appended to an output are all dropped again. */
  lemma {:induction false} DropIgnoresAppendedLineFeeds(v: seq<byte>, m: nat)
    ensures TrailingNewlinesDropped(v + seq(m, _ => LineFeed)) == TrailingNewlinesDropped(v)
  {
    var w := v + seq(m, _ => LineFeed);
    var r := TrailingNewlinesDropped(v);
    assert w[..|v|] == v;
    assert forall k :: |r| <= k < |w| ==> w[k] == LineFeed by {
      forall k | |r| <= k < |w| ensures w[k] == LineFeed {
        if k < |v| {
          assert w[k] == v[k];
        }
      }
    }
    assert r == [] || w[|r| - 1] != LineFeed by {
      if r != [] {
        assert w[|r| - 1] == v[|r| - 1] == r[|r| - 1];
      }
    }
    DroppedUnique(w, |r|);
    assert w[..|r|] == v[..|r|];
  }

  /** `pdf` followed by two line feeds becomes `pdf`. */
  lemma DropExample()
    ensures TrailingNewlinesDropped([112, 100, 102, 10, 10]) == [112, 100, 102]
  {
    var v: seq<byte> := [112, 100, 102, 10, 10];
    DroppedUnique(v, 3);
    assert v[..3] == [112, 100, 102];
  }
}
