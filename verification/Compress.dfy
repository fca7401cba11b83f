/** Run-length encoding (kernel/src/compress.rs): lossless and optimal. */
module Compress {
  import opened Options
  import opened Bytes

  const MAX_RUN := 255

  /** Length of the run the encoder takes at the start of a non-empty input, at least `n`. */
  function RunFrom(s: seq<Byte>, n: nat): (r: nat)
    requires 1 <= n <= |s|
    ensures n <= r <= |s|
    decreases |s| - n
  {
    if n < |s| && s[n] == s[0] && n < MAX_RUN then RunFrom(s, n + 1) else n
  }

  function Encode(s: seq<Byte>): seq<Byte>
    decreases |s|
  {
    if s == [] then []
    else
      var r := RunFrom(s, 1);
      RunBound(s, 1);
      [r, s[0]] + Encode(s[r..])
  }

  function Repeat(b: Byte, n: nat): (r: seq<Byte>)
    ensures |r| == n && forall i | 0 <= i < n :: r[i] == b
  {
    if n == 0 then [] else [b] + Repeat(b, n - 1)
  }

  /** Expansion of count and byte pairs; a trailing odd byte is ignored here and rejected by `Decode`. */
  function Expand(e: seq<Byte>): seq<Byte>
    decreases |e|
  {
    if |e| < 2 then [] else Repeat(e[1], e[0]) + Expand(e[2..])
  }

  function Decode(e: seq<Byte>): Option<seq<Byte>> {
    if |e| % 2 != 0 then None else Some(Expand(e))
  }

  /** The run is maximal: it is all one byte, at most 255 long, and stops only at the limit or at another byte. */
  lemma {:induction false} RunBound(s: seq<Byte>, n: nat)
    requires 1 <= n <= |s| && n <= MAX_RUN
    requires forall i | 0 <= i < n :: s[i] == s[0]
    ensures var r := RunFrom(s, n);
            && r <= MAX_RUN && (forall i | 0 <= i < r :: s[i] == s[0])
            && (r == |s| || r == MAX_RUN || s[r] != s[0])
    decreases |s| - n
  {
    if n < |s| && s[n] == s[0] && n < MAX_RUN {
      RunBound(s, n + 1);
    }
  }

  lemma RunAtLeast(s: seq<Byte>, c: nat)
    requires 1 <= c <= |s| && c <= MAX_RUN && forall i | 0 <= i < c :: s[i] == s[0]
    ensures RunFrom(s, 1) >= c
  {
    RunBound(s, 1);
  }

  lemma EncodeParts(s: seq<Byte>)
    requires s != []
    ensures var r := RunFrom(s, 1);
            && 1 <= r <= MAX_RUN && Encode(s) == [r, s[0]] + Encode(s[r..])
            && |Encode(s)| == 2 + |Encode(s[r..])|
            && (forall i | 0 <= i < r :: s[i] == s[0])
  {
    RunBound(s, 1);
  }

  lemma EncodeLength(s: seq<Byte>)
    requires s != []
    ensures |Encode(s)| == 2 + |Encode(s[RunFrom(s, 1)..])|
  {
    EncodeParts(s);
  }

  lemma ExpandPair(r: Byte, b: Byte, rest: seq<Byte>)
    ensures Expand([r, b] + rest) == Repeat(b, r) + Expand(rest)
    ensures Decode([r, b] + rest).Some? == Decode(rest).Some?
  {
    assert ([r, b] + rest)[2..] == rest;
  }

  /** Decompressing a compressed input gives it back. */
  lemma {:induction false} RoundTrip(s: seq<Byte>)
    ensures Decode(Encode(s)) == Some(s)
    decreases |s|
  {
    if s != [] {
      EncodeParts(s);
      var r := RunFrom(s, 1);
      RoundTrip(s[r..]);
      ExpandPair(r, s[0], Encode(s[r..]));
      hide RunFrom, Encode, Expand;
      assert Repeat(s[0], r) == s[..r];
      assert s == s[..r] + s[r..];
    }
  }

  /** Dropping part of a run leaves at least the rest of it. */
  lemma SuffixRun(s: seq<Byte>, k: nat)
    requires s != [] && k < RunFrom(s, 1)
    ensures RunFrom(s[k..], 1) >= RunFrom(s, 1) - k
  {
    EncodeParts(s);
    var r, t := RunFrom(s, 1), s[k..];
    hide RunFrom, Encode;
    assert forall i | 0 <= i < r - k :: t[i] == s[k + i];
    RunAtLeast(t, r - k);
  }

  lemma DropTwice(s: seq<Byte>, a: nat, b: nat)
    requires a + b <= |s|
    ensures s[a..][b..] == s[a + b..]
  {}

  /** The encoder never needs more pairs for a suffix than for the whole input. */
  lemma {:induction false} SuffixIsNoLonger(s: seq<Byte>, k: nat)
    requires k <= |s|
    ensures |Encode(s[k..])| <= |Encode(s)|
    decreases |s|, k
  {
    hide RunFrom, Encode;
    if k == 0 {
      assert s[k..] == s;
    } else {
      EncodeLength(s);
      var r := RunFrom(s, 1);
      if k >= r {
        DropTwice(s, r, k - r);
        SuffixIsNoLonger(s[r..], k - r);
      } else {
        EncodeLength(s[k..]);
        SuffixRun(s, k);
        var r' := RunFrom(s[k..], 1);
        DropTwice(s, k, r');
        DropTwice(s, r, k + r' - r);
        SuffixIsNoLonger(s[r..], k + r' - r);
      }
    }
  }

  /** Putting a run in front costs at most one pair. */
  lemma RunCostsOnePair(b: Byte, c: Byte, s: seq<Byte>)
    requires c > 0
    ensures |Encode(Repeat(b, c) + s)| <= 2 + |Encode(s)|
  {
    hide RunFrom, Encode, Repeat;
    var t := Repeat(b, c) + s;
    EncodeParts(t);
    RunAtLeast(t, c);
    var r := RunFrom(t, 1);
    assert t[r..] == s[r - c..];
    SuffixIsNoLonger(s, r - c);
  }

  /** No sequence of pairs that decompresses to `s` is shorter than the encoder's. */
  lemma {:induction false} Optimal(s: seq<Byte>, e: seq<Byte>)
    requires Decode(e) == Some(s)
    ensures |Encode(s)| <= |e|
    decreases |e|
  {
    hide Encode;
    if |e| == 0 {
      assert Encode([]) == [] by { EncodeEmpty(); }
    } else {
      var c, s' := e[0], Expand(e[2..]);
      Optimal(s', e[2..]);
      if c > 0 {
        RunCostsOnePair(e[1], c, s');
      } else {
        assert s == s';
      }
    }
  }

  lemma EncodeEmpty()
    ensures Encode([]) == []
  {}

  // ------------------------------------------------------------ the loops

  lemma EncodeStep(dest: seq<Byte>, rest: seq<Byte>)
    requires rest != []
    ensures var r := RunFrom(rest, 1);
            r <= MAX_RUN && dest + Encode(rest) == dest + [r, rest[0]] + Encode(rest[r..])
  {
    EncodeParts(rest);
  }

  /** The inner loop: how far the run that starts at `i` goes. */
  method RunLength(src: seq<Byte>, i: nat) returns (run: nat)
    requires i < |src|
    ensures run == RunFrom(src[i..], 1)
  {
    ghost var rest := src[i..];
    run := 1;
    while i + run < |src| && src[i + run] == src[i] && run < MAX_RUN
      invariant 1 <= run <= MAX_RUN && i + run <= |src| && RunFrom(rest, run) == RunFrom(rest, 1)
    {
      run := run + 1;
    }
  }

  method CompressBytes(src: seq<Byte>) returns (dest: seq<Byte>)
    ensures dest == Encode(src)
  {
    dest := [];
    var i := 0;
    assert src[0..] == src;
    while i < |src|
      invariant 0 <= i <= |src| && dest + Encode(src[i..]) == Encode(src)
    {
      hide Encode, RunFrom;
      var run := RunLength(src, i);
      EncodeStep(dest, src[i..]);
      assert src[i..][run..] == src[i + run..];
      dest := dest + [run, src[i]];
      i := i + run;
    }
    assert src[i..] == [];
  }

  lemma ExpandStep(out: seq<Byte>, rest: seq<Byte>)
    requires |rest| >= 2
    ensures out + Expand(rest) == out + Repeat(rest[1], rest[0]) + Expand(rest[2..])
  {}

  lemma RepeatMore(b: Byte, n: nat)
    ensures Repeat(b, n) + [b] == Repeat(b, n + 1)
  {}

  method DecompressBytes(src: seq<Byte>) returns (dest: Option<seq<Byte>>)
    ensures dest == Decode(src)
  {
    if |src| % 2 != 0 {
      return None;
    }
    var out := [];
    var i := 0;
    assert src[0..] == src;
    while i < |src|
      invariant 0 <= i <= |src| && i % 2 == 0 && out + Expand(src[i..]) == Expand(src)
    {
      ghost var start := out;
      ExpandStep(start, src[i..]);
      assert src[i..][2..] == src[i + 2..];
      hide Expand, Repeat;
      var n := 0;
      assert start + Repeat(src[i + 1], 0) == start;
      while n < src[i]
        invariant 0 <= n <= src[i] && out == start + Repeat(src[i + 1], n)
      {
        RepeatMore(src[i + 1], n);
        assert start + Repeat(src[i + 1], n) + [src[i + 1]] == start + Repeat(src[i + 1], n + 1);
        out := out + [src[i + 1]];
        n := n + 1;
      }
      i := i + 2;
    }
    assert src[i..] == [] && Expand(src[i..]) == [];
    assert out == Expand(src);
    return Some(out);
  }
}
