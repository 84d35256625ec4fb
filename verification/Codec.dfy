/** The text compressor of the generator, its decoder in C and the boot ROM's decoder in Thumb
    assembly. */
module Codec {
  type byte = x: int | 0 <= x < 256

  const BUFFER := 4096

  /** A byte of text, or a copy of len bytes starting off bytes back. */
  datatype Token = Literal(b: byte) | Match(len: nat, off: nat)

  function Code(t: Token): seq<byte>
    requires t.Match? ==> 3 <= t.len <= 127 && 1 <= t.off <= 255
  {
    match t
    case Literal(b) => [b]
    case Match(len, off) => [0x100 - len, off]
  }

  predicate Encodable(ts: seq<Token>) {
    forall t :: t in ts ==> if t.Match? then 3 <= t.len <= 127 && 1 <= t.off <= 255 else t.b < 0x80
  }

  function Encode(ts: seq<Token>): (r: seq<byte>)
    requires Encodable(ts)
  {
    if ts == [] then [] else Encode(ts[..|ts| - 1]) + Code(ts[|ts| - 1])
  }

  /** What a copy appends; it may read what it has just written. */
  function Copy(out: seq<byte>, len: nat, off: nat): (r: seq<byte>)
    requires 1 <= off <= |out|
    ensures |r| == |out| + len && r[..|out|] == out
    decreases len
  {
    if len == 0 then out else Copy(out + [out[|out| - off]], len - 1, off)
  }

  predicate Applies(out: seq<byte>, t: Token) { t.Match? ==> 1 <= t.off <= |out| }

  function Extend(out: seq<byte>, t: Token): (r: seq<byte>)
    requires Applies(out, t)
    ensures |r| >= |out| && r[..|out|] == out
  {
    match t
    case Literal(b) => out + [b]
    case Match(len, off) => Copy(out, len, off)
  }

  /** The text the tokens stand for, if every copy stays within what precedes it. */
  predicate Expands(ts: seq<Token>)
    decreases |ts|, 0
  {
    ts == [] || (Expands(ts[..|ts| - 1]) && Applies(Expand(ts[..|ts| - 1]), ts[|ts| - 1]))
  }

  function Expand(ts: seq<Token>): seq<byte>
    requires Expands(ts)
    decreases |ts|, 1
  {
    if ts == [] then [] else Extend(Expand(ts[..|ts| - 1]), ts[|ts| - 1])
  }

  // ---- Token boundaries, as a decoder meets them ----

  /** After k tokens a decoder has read i bytes and produced out. */
  ghost predicate At(ts: seq<Token>, k: nat, i: nat, out: seq<byte>) {
    && k <= |ts| && Encodable(ts) && Expands(ts) && Encodable(ts[..k]) && Expands(ts[..k])
    && i == |Encode(ts[..k])| && out == Expand(ts[..k])
    && Encode(ts[..k]) <= Encode(ts) && out <= Expand(ts)
    && (i == |Encode(ts)| <==> k == |ts|)
  }

  lemma AtStart(ts: seq<Token>)
    requires Encodable(ts) && Expands(ts)
    ensures At(ts, 0, 0, [])
  {
  }

  lemma AtEnd(ts: seq<Token>, k: nat, i: nat, out: seq<byte>)
    requires At(ts, k, i, out)
    ensures out <= Expand(ts) && i <= |Encode(ts)| && (i == |Encode(ts)| ==> out == Expand(ts))
  {
    if k == |ts| { assert ts[..k] == ts; }
  }

  lemma {:induction false} PrefixOf(ts: seq<Token>, k: nat)
    requires k <= |ts| && Encodable(ts) && Expands(ts)
    ensures Encodable(ts[..k]) && Expands(ts[..k])
    ensures Encode(ts[..k]) <= Encode(ts) && Expand(ts[..k]) <= Expand(ts)
    ensures |Encode(ts[..k])| == |Encode(ts)| <==> k == |ts|
  {
    if k < |ts| {
      PrefixOf(ts[..|ts| - 1], k);
      assert ts[..|ts| - 1][..k] == ts[..k];
    } else {
      assert ts[..k] == ts;
    }
  }

  /** The next token: its bytes, and what it makes of the output. */
  lemma NextToken(ts: seq<Token>, k: nat, i: nat, out: seq<byte>)
    requires At(ts, k, i, out) && i < |Encode(ts)|
    ensures k < |ts|
    ensures ts[k].Literal? ==> Encode(ts)[i] == ts[k].b < 0x80 && At(ts, k + 1, i + 1, out + [ts[k].b])
    ensures ts[k].Match? ==>
              && 3 <= ts[k].len <= 127 && 1 <= ts[k].off <= |out| && i + 2 <= |Encode(ts)|
              && Encode(ts)[i] == 0x100 - ts[k].len && Encode(ts)[i + 1] == ts[k].off
              && At(ts, k + 1, i + 2, Copy(out, ts[k].len, ts[k].off)) && |out| + ts[k].len <= |Expand(ts)|
  {
    PrefixOf(ts, k + 1);
    assert ts[..k + 1][..k] == ts[..k] && ts[k] in ts;
    var c := Encode(ts[..k]);
    assert Encode(ts[..k + 1]) == c + Code(ts[k]);
    assert c[..i] == c;
  }

  // ---- Compressing ----

  /** src repeats at p what it holds off bytes before, for len bytes: what a match may encode. */
  predicate Repeats(src: seq<byte>, p: nat, len: nat, off: nat) {
    && 3 <= len <= 127 && 1 <= off <= 255 && off <= p && p + len <= |src|
    && src[p..p + len] == src[p - off..p - off + len]
  }

  /** The token wanted at p: the longest repeat, of those the farthest, or a literal if there is none. */
  ghost predicate Chosen(src: seq<byte>, p: nat, t: Token) {
    match t
    case Literal(b) => p < |src| && b == src[p] && forall l: nat, o: nat :: !Repeats(src, p, l, o)
    case Match(len, off) =>
      && Repeats(src, p, len, off)
      && forall l: nat, o: nat :: Repeats(src, p, l, o) ==> l < len || (l == len && o <= off)
  }

  predicate AfterMatch(ts: seq<Token>) { ts != [] && ts[|ts| - 1].Match? }

  /** The tokens of src from left to right, where a match is always followed by a literal. */
  ghost predicate Greedy(src: seq<byte>, ts: seq<Token>)
    requires Expands(ts)
  {
    ts == [] ||
    var front, t := ts[..|ts| - 1], ts[|ts| - 1];
    var p := |Expand(front)|;
    && Greedy(src, front)
    && if AfterMatch(front) then p < |src| && t == Literal(src[p]) else Chosen(src, p, t)
  }

  lemma {:induction false} GreedyAt(src: seq<byte>, ts: seq<Token>, k: nat)
    requires Expands(ts) && Greedy(src, ts) && k < |ts|
    ensures Expands(ts[..k]) && |Expand(ts[..k])| < |src|
    ensures var p := |Expand(ts[..k])|;
            if AfterMatch(ts[..k]) then ts[k] == Literal(src[p]) else Chosen(src, p, ts[k])
  {
    if k < |ts| - 1 {
      GreedyAt(src, ts[..|ts| - 1], k);
      assert ts[..|ts| - 1][..k] == ts[..k];
    }
  }

  /** What greedy means for the bytes of the text, unless a match comes before: if the token at p is
      a match it copies 3 to 127 bytes found at most 255 bytes before; and whichever such run of l
      bytes at f there is, the token is a match that is longer, or as long and from f or farther. */
  lemma GreedyMeans(src: seq<byte>, ts: seq<Token>, k: nat, l: nat, f: nat)
    requires Expands(ts) && Greedy(src, ts) && k < |ts| && (k > 0 ==> ts[k - 1].Literal?)
    ensures Expands(ts[..k]) && |Expand(ts[..k])| < |src|
    ensures var p, t := |Expand(ts[..k])|, ts[k];
            && (t.Match? ==>
                  && 3 <= t.len <= 127 && 1 <= t.off <= 255 && t.off <= p && p + t.len <= |src|
                  && src[p..p + t.len] == src[p - t.off..p - t.off + t.len])
            && (t.Literal? ==> t.b == src[p])
            && (3 <= l <= 127 && f < p <= f + 255 && p + l <= |src| && src[p..p + l] == src[f..f + l] ==>
                  t.Match? && (t.len > l || (t.len == l && p - t.off <= f)))
  {
    hide Expand, Expands, Greedy, Chosen;
    GreedyAt(src, ts, k);
    if k > 0 { assert ts[..k][k - 1] == ts[k - 1]; }
    ChosenMeans(src, |Expand(ts[..k])|, ts[k], l, f);
  }

  lemma ChosenMeans(src: seq<byte>, p: nat, t: Token, l: nat, f: nat)
    requires Chosen(src, p, t) && p < |src|
    ensures t.Match? ==>
              && 3 <= t.len <= 127 && 1 <= t.off <= 255 && t.off <= p && p + t.len <= |src|
              && src[p..p + t.len] == src[p - t.off..p - t.off + t.len]
    ensures t.Literal? ==> t.b == src[p]
    ensures 3 <= l <= 127 && f < p <= f + 255 && p + l <= |src| && src[p..p + l] == src[f..f + l] ==>
              t.Match? && (t.len > l || (t.len == l && p - t.off <= f))
  {
    if 3 <= l <= 127 && f < p <= f + 255 && p + l <= |src| && src[p..p + l] == src[f..f + l] {
      assert Repeats(src, p, l, p - f);
    }
  }

  /** The greedy tokens of a text are determined by it. */
  lemma {:induction false} GreedyIsUnique(src: seq<byte>, ts: seq<Token>, us: seq<Token>, k: nat)
    requires Expands(ts) && Greedy(src, ts) && Expands(us) && Greedy(src, us) && Expand(us) == src && k <= |ts|
    ensures k <= |us| && ts[..k] == us[..k]
  {
    hide Expands, Expand, Greedy;
    if k > 0 {
      GreedyIsUnique(src, ts, us, k - 1);
      GreedyAt(src, ts, k - 1);
      assert us[..|us|] == us;
      GreedyAt(src, us, k - 1);
      assert ts[k - 1] == us[k - 1];
    }
  }

  lemma {:induction false} RepeatIsCopy(src: seq<byte>, p: nat, len: nat, off: nat)
    requires 1 <= off <= p && p + len <= |src| && src[p..p + len] == src[p - off..p - off + len]
    ensures Copy(src[..p], len, off) == src[..p + len]
    decreases len
  {
    if len > 0 {
      assert src[p] == src[p..p + len][0] == src[p - off..p - off + len][0] == src[p - off];
      assert src[..p] + [src[..p][p - off]] == src[..p + 1];
      assert src[p + 1..p + len] == src[p..p + len][1..] == src[p - off..p - off + len][1..]
          == src[p + 1 - off..p - off + len];
      RepeatIsCopy(src, p + 1, len - 1, off);
    }
  }

  /** The search for a match at to: the longest first, for each length the farthest first. */
  method FindMatch(src: seq<byte>, to: nat) returns (found: bool, len: nat, from: nat)
    requires to < |src|
    ensures found ==> from < to && Chosen(src, to, Match(len, to - from))
    ensures !found ==> forall l: nat, o: nat :: !Repeats(src, to, l, o)
  {
    found, len, from := false, 0, 0;
    var matchLen := if |src| - to < 127 then |src| - to else 127;
    while matchLen >= 3 && !found
      invariant matchLen <= 127 && to + matchLen <= |src|
      invariant !found ==> forall l: nat, o: nat :: Repeats(src, to, l, o) ==> l <= matchLen
      invariant found ==> from < to && Chosen(src, to, Match(len, to - from))
      decreases if found then 0 else matchLen
    {
      var k := if to > 255 then to - 255 else 0;
      while k < to && !found
        invariant k <= to && to - k <= 255
        invariant !found ==> forall o: nat :: Repeats(src, to, matchLen, o) ==> o <= to - k
        invariant found ==> len == matchLen && from < to && Chosen(src, to, Match(len, to - from))
      {
        if src[to..to + matchLen] == src[k..k + matchLen] {
          assert Repeats(src, to, matchLen, to - k);
          found, len, from := true, matchLen, k;
        }
        k := k + 1;
      }
      matchLen := matchLen - 1;
    }
  }

  /** The tokens chosen so far for the first p bytes, and their encoding. */
  ghost predicate Parsed(src: seq<byte>, p: nat, ts: seq<Token>, code: seq<byte>) {
    && p <= |src| && Encodable(ts) && Expands(ts) && code == Encode(ts) && Expand(ts) == src[..p] && Greedy(src, ts)
  }

  lemma Appended(src: seq<byte>, p: nat, ts: seq<Token>, code: seq<byte>, t: Token, q: nat)
    requires Parsed(src, p, ts, code) && Encodable([t]) && Applies(src[..p], t) && p <= q <= |src|
    requires Extend(src[..p], t) == src[..q]
    requires if AfterMatch(ts) then p < |src| && t == Literal(src[p]) else Chosen(src, p, t)
    ensures Parsed(src, q, ts + [t], code + Code(t)) && AfterMatch(ts + [t]) == t.Match?
  {
    hide Chosen, Applies, Extend;
    var us := ts + [t];
    assert us[..|us| - 1] == ts && us[|us| - 1] == t;
    forall u | u in us ensures if u.Match? then 3 <= u.len <= 127 && 1 <= u.off <= 255 else u.b < 0x80 {
      assert u in ts || u in [t];
    }
  }

  lemma MatchChosen(src: seq<byte>, p: nat, ts: seq<Token>, code: seq<byte>, len: nat, off: nat)
    requires Parsed(src, p, ts, code) && Chosen(src, p, Match(len, off)) && !AfterMatch(ts)
    ensures p + len <= |src| && 3 <= len <= 127 && 1 <= off <= 255
    ensures Parsed(src, p + len, ts + [Match(len, off)], code + [0x100 - len, off])
            && AfterMatch(ts + [Match(len, off)])
  {
    hide Parsed, AfterMatch;
    RepeatIsCopy(src, p, len, off);
    Appended(src, p, ts, code, Match(len, off), p + len);
  }

  lemma LiteralChosen(src: seq<byte>, p: nat, ts: seq<Token>, code: seq<byte>)
    requires Parsed(src, p, ts, code) && p < |src| && src[p] < 0x80
    requires AfterMatch(ts) || forall l: nat, o: nat :: !Repeats(src, p, l, o)
    ensures Parsed(src, p + 1, ts + [Literal(src[p])], code + [src[p]]) && !AfterMatch(ts + [Literal(src[p])])
  {
    hide Parsed, AfterMatch, Repeats;
    assert src[..p] + [src[p]] == src[..p + 1];
    Appended(src, p, ts, code, Literal(src[p]), p + 1);
  }

  /** The loop of compress. */
  method ChooseTokens(src: seq<byte>, buf: array<byte>) returns (n: nat, cost: int, ghost ts: seq<Token>)
    requires |src| <= buf.Length && forall b :: b in src ==> b < 0x80
    modifies buf
    ensures cost == n <= |src| && Parsed(src, |src|, ts, buf[..n])
  {
    hide Parsed, Chosen, Repeats, AfterMatch;
    n, cost, ts := 0, |src|, [];
    var to := 0;
    NothingParsed(src);
    while to < |src|
      invariant n <= to <= |src| + 1 && n <= |src|
      invariant to <= |src| ==> Parsed(src, to, ts, buf[..n]) && !AfterMatch(ts) && cost - n == |src| - to
      invariant to > |src| ==> Parsed(src, |src|, ts, buf[..n]) && cost == n
    {
      var found, len, from := FindMatch(src, to);
      ghost var code := buf[..n];
      if found {
        cost := cost + 2;
        cost := cost - len;
        MatchChosen(src, to, ts, code, len, to - from);
        buf[n] := 0x100 - len;
        buf[n + 1] := to - from;
        n := n + 2;
        ts, code := ts + [Match(len, to - from)], code + [0x100 - len, to - from];
        assert buf[..n] == code;
        to := to + len;
      }
      if to != |src| {
        assert src[to] in src;
        LiteralChosen(src, to, ts, code);
        buf[n] := src[to];
        n := n + 1;
        ts := ts + [Literal(src[to])];
        assert buf[..n] == code + [src[to]];
      }
      to := to + 1;
    }
  }

  lemma NothingParsed(src: seq<byte>)
    ensures Parsed(src, 0, [], []) && !AfterMatch([])
  {
  }

  /** compress, without the printing: the encoding of the greedy tokens of the text. It is never
      longer than the text, and the cost the program reports is its length. Text of exactly the
      check buffer's size is turned down, since decompress then reports 0. */
  method Compress(src: seq<byte>) returns (ok: bool, out: seq<byte>, cost: int, ghost ts: seq<Token>)
    requires |src| <= BUFFER
    ensures ok <==> (forall b :: b in src ==> b < 0x80) && |src| != BUFFER
    ensures ok ==> Encodable(ts) && Expands(ts) && out == Encode(ts) && Expand(ts) == src && Greedy(src, ts)
    ensures ok ==> cost == |out| <= |src|
  {
    hide Encode, Expand, Expands, Greedy, Encodable;
    ok, out, cost, ts := false, [], |src|, [];
    for i := 0 to |src|
      invariant forall j :: 0 <= j < i ==> src[j] < 0x80
    {
      if src[i] >= 0x80 { assert src[i] in src; return; }
    }
    var buf, checkBuf := new byte[BUFFER], new byte[BUFFER];
    var n;
    n, cost, ts := ChooseTokens(src, buf);
    out := buf[..n];
    assert src[..|src|] == src;
    var checkN := Decompress(out, checkBuf, ts);
    if checkN != |src| || checkBuf[..checkN] != src { return; }
    ok := true;
  }

  // ---- Decompressing ----

  lemma CopyStep(out: seq<byte>, len: nat, back: nat)
    requires 1 <= back <= |out| && len > 0
    ensures Copy(out, len, back) == Copy(out + [out[|out| - back]], len - 1, back)
  {
  }

  /** The copying loop of the decoder: byte by byte, so that it may read what it has written. */
  method CopyBack(buf: array<byte>, start: nat, len: nat, back: nat)
    requires 1 <= back <= start && start + len <= buf.Length
    modifies buf
    ensures buf[..start + len] == Copy(old(buf[..start]), len, back)
  {
    hide Copy;
    var n, off, left := start, start - back, len;
    while left > 0
      invariant 0 <= left <= len && n == start + len - left && off == n - back
      invariant Copy(buf[..n], left, back) == Copy(old(buf[..start]), len, back)
    {
      ghost var was := buf[..n];
      CopyStep(was, left, back);
      buf[n] := buf[off];
      assert buf[..n + 1] == was + [was[n - back]];
      n, off, left := n + 1, off + 1, left - 1;
    }
    CopyNone(buf[..n], back);
  }

  lemma CopyNone(out: seq<byte>, back: nat)
    requires 1 <= back <= |out|
    ensures Copy(out, 0, back) == out
  {
  }

  /** The decoder in C, on what tokens encode: it gives back their text, and 0 instead of the
      length when the text fills the buffer. */
  method Decompress(data: seq<byte>, buf: array<byte>, ghost ts: seq<Token>) returns (n: nat)
    requires Encodable(ts) && Expands(ts) && data == Encode(ts) && |Expand(ts)| <= buf.Length
    modifies buf
    ensures buf[..|Expand(ts)|] == Expand(ts)
    ensures n == if |Expand(ts)| == buf.Length then 0 else |Expand(ts)|
  {
    hide Encode, Expand, Expands, Copy, Encodable, At;
    n := 0;
    var i := 0;
    ghost var k := 0;
    AtStart(ts);
    while i < |data| && n < buf.Length
      invariant i <= |data| && n <= |Expand(ts)| && At(ts, k, i, buf[..n])
    {
      NextToken(ts, k, i, buf[..n]);
      var b := data[i];
      if b < 0x80 {
        ghost var was := buf[..n];
        buf[n] := b;
        n := n + 1;
        assert buf[..n] == was + [b];
      } else {
        var len := 0x100 - b;
        i := i + 1;
        CopyBack(buf, n, len, data[i]);
        n := n + len;
      }
      i := i + 1;
      k := k + 1;
      AtEnd(ts, k, i, buf[..n]);
    }
    AtEnd(ts, k, i, buf[..n]);
    if n == buf.Length { n := 0; }
  }

  /** The decoder in Thumb assembly. It is given the end of the data, and r1 counts up from minus
      its size to zero; r5 is -1 for a literal, so that the copying loop stores one byte, and minus
      the length of a match otherwise. */
  method ThumbDecompress(data: seq<byte>, dest: array<byte>, ghost ts: seq<Token>) returns (r2: int)
    requires Encodable(ts) && Expands(ts) && data == Encode(ts) && |data| > 0 && |Expand(ts)| <= dest.Length
    modifies dest
    ensures r2 == |Expand(ts)| && dest[..r2] == Expand(ts)
    ensures forall j :: r2 <= j < dest.Length ==> dest[j] == old(dest[j])
  {
    hide Encode, Expand, Expands, Copy, Encodable, At;
    var r1 := -|data|;
    r2 := 0;
    ghost var k := 0;
    AtStart(ts);
    while true
      invariant -|data| <= r1 < 0 <= r2 <= |Expand(ts)| && At(ts, k, |data| + r1, dest[..r2])
      invariant forall j :: r2 <= j < dest.Length ==> dest[j] == old(dest[j])
      decreases -r1
    {
      NextToken(ts, k, |data| + r1, dest[..r2]);
      ghost var was := dest[..r2];
      var r3: int := data[|data| + r1];
      r2 := r2 + 1;
      var carry := r3 / 0x80 % 2;             // the bit lsr #8 shifts out
      var r5 := carry - 1;                    // sbc r5, r5
      if r5 != 0 {
        dest[r2 + r5] := r3;
        assert dest[..r2] == was + [r3];
      } else {
        r5 := r3 - 0x100;                     // sxtb: the top bit is set
        carry := if r1 == -1 then 1 else 0;
        r1 := r1 + 1;
        var r4: int := data[|data| + r1];
        r2 := r2 - r5 - (1 - carry);          // sbc r2, r5
        r4 := r2 - r4;
        CopyUp(dest, r2, r4, r5);
      }
      k := k + 1;
      r1 := r1 + 1;
      AtEnd(ts, k, |data| + r1, dest[..r2]);
      if r1 == 0 { break; }
    }
  }

  /** The loop at label 2 of the decoder. */
  method CopyUp(dest: array<byte>, r2: int, r4: int, start: int)
    requires start < 0 && r2 - r4 >= 1 && 0 <= r4 + start && r2 <= dest.Length
    modifies dest
    ensures dest[..r2] == Copy(old(dest[..r2 + start]), -start, r2 - r4)
    ensures forall j :: r2 <= j < dest.Length ==> dest[j] == old(dest[j])
  {
    hide Copy;
    var r5 := start;
    ghost var back := r2 - r4;
    while r5 != 0
      invariant start <= r5 <= 0
      invariant Copy(dest[..r2 + r5], -r5, back) == Copy(old(dest[..r2 + start]), -start, back)
      invariant forall j :: r2 <= j < dest.Length ==> dest[j] == old(dest[j])
      decreases -r5
    {
      ghost var was := dest[..r2 + r5];
      CopyStep(was, -r5, back);
      var r3 := dest[r4 + r5];
      dest[r2 + r5] := r3;
      assert dest[..r2 + r5 + 1] == was + [was[r2 + r5 - back]];
      r5 := r5 + 1;
    }
    CopyNone(dest[..r2], back);
  }

  /** What the format is for: the device shows the text the generator compressed. */
  method CompressThenShow(src: seq<byte>, dest: array<byte>) returns (ok: bool)
    requires |src| <= BUFFER && |src| <= dest.Length
    modifies dest
    ensures ok <==> (forall b :: b in src ==> b < 0x80) && |src| != BUFFER
    ensures ok ==> dest[..|src|] == src
  {
    hide Encode, Expand, Expands, Greedy, Encodable, At;
    var out, cost;
    ghost var ts;
    ok, out, cost, ts := Compress(src);
    if ok {
      AtStart(ts);
      AtEnd(ts, 0, 0, []);
      if |out| > 0 {
        var end := ThumbDecompress(out, dest, ts);
      }
    }
  }
}
