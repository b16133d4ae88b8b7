/** The two base64 decoders: the topology consumer shifts sextets through a
    32-bit accumulator, the key parser decodes blocks of four.  Both are set
    against the encoder of section 4 of RFC 4648. */
module Base64 {
  import opened Prelude

  const PAD: bv8 := 0x3D

  predicate IsWhitespace(c: bv8) {
    c == 0x20 || c == 0x09 || c == 0x0A || c == 0x0C || c == 0x0D
  }

  /** The six-bit value of an alphabet character. */
  function Sextet(c: bv8): (v: Option<bv8>)
    ensures v.Some? ==> v.value < 64 && c != PAD && !IsWhitespace(c)
  {
    if 0x41 <= c <= 0x5A then Some(c - 0x41)
    else if 0x61 <= c <= 0x7A then Some(c - 0x61 + 26)
    else if 0x30 <= c <= 0x39 then Some(c - 0x30 + 52)
    else if c == 0x2B then Some(62)
    else if c == 0x2F then Some(63)
    else None
  }

  /** c stands for v in the standard alphabet: A to Z, a to z, 0 to 9, + and /. */
  predicate IsLetter(c: bv8, v: bv8) {
    || (0x41 <= c <= 0x5A && v == c - 0x41)
    || (0x61 <= c <= 0x7A && v == 26 + (c - 0x61))
    || (0x30 <= c <= 0x39 && v == 52 + (c - 0x30))
    || (c == 0x2B && v == 62)
    || (c == 0x2F && v == 63)
  }

  lemma SextetExactly(c: bv8, v: bv8)
    ensures Sextet(c) == Some(v) <==> IsLetter(c, v)
  {
  }

  predicate InAlphabet(s: seq<bv8>) {
    forall i :: 0 <= i < |s| ==> Sextet(s[i]).Some?
  }

  // ------------------------------------------------- the accumulator decoder

  function Shifted(buf: bv32, v: bv8): bv32 {
    (buf << 6) | (v as bv32)
  }

  function LowByte(buf: bv32, bits: nat): bv8
    requires bits < 8
  {
    ((buf >> bits) & 0xFF) as bv8
  }

  /** What the accumulator emits from a given state. */
  function Accumulate(s: seq<bv8>, buf: bv32, bits: nat): Option<seq<bv8>>
    requires bits < 8
    decreases |s|
  {
    if s == [] then Some([])
    else
      match Sextet(s[0])
      case None => None
      case Some(v) =>
        var b := Shifted(buf, v);
        if bits + 6 < 8 then Accumulate(s[1..], b, bits + 6)
        else
          match Accumulate(s[1..], b, bits - 2)
          case None => None
          case Some(out) => Some([LowByte(b, bits - 2)] + out)
  }

  function TrimPad(s: seq<bv8>): (t: seq<bv8>)
    ensures t <= s && (t == [] || t[|t| - 1] != PAD)
    ensures forall i :: |t| <= i < |s| ==> s[i] == PAD
  {
    if s == [] || s[|s| - 1] != PAD then s else TrimPad(s[..|s| - 1])
  }

  method DecodeAccumulator(input: seq<bv8>) returns (r: Option<seq<bv8>>)
    ensures r == Accumulate(TrimPad(input), 0, 0)
  {
    var trimmed := TrimPad(input);
    var out: seq<bv8> := [];
    var buf: bv32 := 0;
    var bits: nat := 0;
    PrependTwice([], [], Accumulate(trimmed, 0, 0));
    assert trimmed[0..] == trimmed;
    for i := 0 to |trimmed|
      invariant bits < 8
      invariant Accumulate(trimmed, 0, 0) == Prepend(out, Accumulate(trimmed[i..], buf, bits))
    {
      var v := Sextet(trimmed[i]);
      if v.None? { return None; }
      assert trimmed[i..][1..] == trimmed[i + 1..];
      buf := Shifted(buf, v.value);
      bits := bits + 6;
      if bits >= 8 {
        bits := bits - 8;
        PrependTwice(out, [LowByte(buf, bits)], Accumulate(trimmed[i + 1..], buf, bits));
        out := out + [LowByte(buf, bits)];
      }
    }
    r := Some(out);
    assert out + [] == out;
  }

  function Prepend(out: seq<bv8>, r: Option<seq<bv8>>): Option<seq<bv8>> {
    match r
    case None => None
    case Some(more) => Some(out + more)
  }

  lemma PrependTwice(a: seq<bv8>, b: seq<bv8>, r: Option<seq<bv8>>)
    ensures Prepend(a, Prepend(b, r)) == Prepend(a + b, r)
    ensures Prepend([], r) == r
  {
    if r.Some? { assert a + (b + r.value) == a + b + r.value && [] + r.value == r.value; }
  }

  // ------------------------------------------------------- the block decoder

  function First(a: bv8, b: bv8): bv8 { (a << 2) | (b >> 4) }

  function Second(b: bv8, c: bv8): bv8 { ((b & 0x0F) << 4) | (c >> 2) }

  function Third(c: bv8, d: bv8): bv8 { ((c & 0x03) << 6) | d }

  /** What the block decoder returns for characters already filtered. */
  function Blocks(s: seq<bv8>): Option<seq<bv8>>
    decreases |s|
  {
    if !InAlphabet(if |s| < 4 then s else s[..4]) || |s| == 1 then None
    else if |s| == 0 then Some([])
    else
      var first := First(Sextet(s[0]).value, Sextet(s[1]).value);
      if |s| == 2 then Some([first])
      else
        var second := Second(Sextet(s[1]).value, Sextet(s[2]).value);
        if |s| == 3 then Some([first, second])
        else Prepend([first, second, Third(Sextet(s[2]).value, Sextet(s[3]).value)], Blocks(s[4..]))
  }

  function Filtered(s: seq<bv8>): (t: seq<bv8>)
    ensures |t| <= |s|
  {
    if s == [] then []
    else (if IsWhitespace(s[0]) || s[0] == PAD then [] else [s[0]]) + Filtered(s[1..])
  }

  method DecodeBlocks(input: seq<bv8>) returns (r: Option<seq<bv8>>)
    ensures r == Blocks(Filtered(input))
  {
    hide Blocks, First, Second, Third;
    var bytes := Filtered(input);
    var out: seq<bv8> := [];
    var i: nat := 0;
    PrependTwice([], [], Blocks(bytes));
    assert bytes[0..] == bytes;
    while i + 3 < |bytes|
      invariant i <= |bytes|
      invariant Blocks(bytes) == Prepend(out, Blocks(bytes[i..]))
    {
      var a, b, c, d := Sextet(bytes[i]), Sextet(bytes[i + 1]), Sextet(bytes[i + 2]), Sextet(bytes[i + 3]);
      OneBlock(bytes, i);
      if a.None? || b.None? || c.None? || d.None? { return None; }
      var three := [First(a.value, b.value), Second(b.value, c.value), Third(c.value, d.value)];
      PrependTwice(out, three, Blocks(bytes[i + 4..]));
      out := out + three;
      i := i + 4;
    }
    LastBlock(bytes, i);
    match |bytes| - i {
      case 0 => r := Some(out + []);
      case 2 =>
        var a, b := Sextet(bytes[i]), Sextet(bytes[i + 1]);
        if a.None? || b.None? { return None; }
        r := Some(out + [First(a.value, b.value)]);
      case 3 =>
        var a, b, c := Sextet(bytes[i]), Sextet(bytes[i + 1]), Sextet(bytes[i + 2]);
        if a.None? || b.None? || c.None? { return None; }
        r := Some(out + [First(a.value, b.value), Second(b.value, c.value)]);
      case _ => r := None;
    }
  }

  lemma OneBlock(s: seq<bv8>, i: nat)
    requires i + 4 <= |s|
    ensures
      var a, b, c, d := Sextet(s[i]), Sextet(s[i + 1]), Sextet(s[i + 2]), Sextet(s[i + 3]);
      Blocks(s[i..]) ==
      if a.None? || b.None? || c.None? || d.None? then None
      else Prepend([First(a.value, b.value), Second(b.value, c.value), Third(c.value, d.value)], Blocks(s[i + 4..]))
  {
    hide First, Second, Third;
    var t := s[i..];
    assert t[4..] == s[i + 4..];
    assert t[..4][0] == s[i] && t[..4][1] == s[i + 1] && t[..4][2] == s[i + 2] && t[..4][3] == s[i + 3];
  }

  lemma LastBlock(s: seq<bv8>, i: nat)
    requires i <= |s| < i + 4
    ensures
      match |s| - i
      case 0 => Blocks(s[i..]) == Some([])
      case 2 =>
        var a, b := Sextet(s[i]), Sextet(s[i + 1]);
        Blocks(s[i..]) == if a.None? || b.None? then None else Some([First(a.value, b.value)])
      case 3 =>
        var a, b, c := Sextet(s[i]), Sextet(s[i + 1]), Sextet(s[i + 2]);
        Blocks(s[i..]) == if a.None? || b.None? || c.None? then None
                          else Some([First(a.value, b.value), Second(b.value, c.value)])
      case _ => Blocks(s[i..]) == None
  {
    hide First, Second, Third;
    var t := s[i..];
    if |t| >= 2 { assert t[0] == s[i] && t[1] == s[i + 1]; }
    if |t| == 3 { assert t[2] == s[i + 2]; }
  }

  // ------------------------------------------------------------- agreement

  /** However many stale bits the accumulator carries, its bytes are the block
      decoder's. */
  lemma EmittedBytes(buf: bv32, a: bv8, b: bv8, c: bv8, d: bv8)
    requires a < 64 && b < 64 && c < 64 && d < 64
    ensures LowByte(Shifted(Shifted(buf, a), b), 4) == First(a, b)
    ensures LowByte(Shifted(Shifted(Shifted(buf, a), b), c), 2) == Second(b, c)
    ensures LowByte(Shifted(Shifted(Shifted(Shifted(buf, a), b), c), d), 0) == Third(c, d)
  {
  }

  lemma AlphabetSplits(s: seq<bv8>, k: nat)
    requires k <= |s|
    ensures InAlphabet(s) <==> InAlphabet(s[..k]) && InAlphabet(s[k..])
  {
    hide Sextet;
    assert forall i :: k <= i < |s| ==> s[k..][i - k] == s[i];
  }

  /** The first two characters of a block emit its first byte. */
  lemma AccumulateHead(s: seq<bv8>, buf: bv32, a: bv8, b: bv8)
    requires |s| >= 2 && Sextet(s[0]) == Some(a) && Sextet(s[1]) == Some(b)
    ensures Accumulate(s, buf, 0) == Prepend([First(a, b)], Accumulate(s[2..], Shifted(Shifted(buf, a), b), 4))
  {
    hide First, Second, Third, LowByte, Shifted, Accumulate, Prepend;
    AccumulateOne(s, buf, 0);
    AccumulateOne(s[1..], Shifted(buf, a), 6);
    assert s[1..][1..] == s[2..];
    EmittedBytes(buf, a, b, 0, 0);
  }

  /** The last two characters of a block emit its other two bytes. */
  lemma AccumulateTail(s: seq<bv8>, buf: bv32, a: bv8, b: bv8, c: bv8, d: bv8)
    requires a < 64 && b < 64
    requires |s| >= 2 && Sextet(s[0]) == Some(c) && Sextet(s[1]) == Some(d)
    ensures
      var b2 := Shifted(Shifted(buf, a), b);
      Accumulate(s, b2, 4) == Prepend([Second(b, c), Third(c, d)], Accumulate(s[2..], Shifted(Shifted(b2, c), d), 0))
  {
    hide First, Second, Third, LowByte, Shifted, Accumulate, Prepend;
    var b2 := Shifted(Shifted(buf, a), b);
    AccumulateOne(s, b2, 4);
    AccumulateOne(s[1..], Shifted(b2, c), 2);
    assert s[1..][1..] == s[2..];
    EmittedBytes(buf, a, b, c, d);
    PrependTwice([Second(b, c)], [Third(c, d)], Accumulate(s[2..], Shifted(Shifted(b2, c), d), 0));
    assert [Second(b, c)] + [Third(c, d)] == [Second(b, c), Third(c, d)];
  }

  /** One block through the accumulator, from any byte boundary. */
  lemma AccumulateBlock(s: seq<bv8>, buf: bv32, a: bv8, b: bv8, c: bv8, d: bv8)
    requires |s| >= 4
    requires Sextet(s[0]) == Some(a) && Sextet(s[1]) == Some(b) && Sextet(s[2]) == Some(c) && Sextet(s[3]) == Some(d)
    ensures
      Accumulate(s, buf, 0) ==
      Prepend([First(a, b), Second(b, c), Third(c, d)],
              Accumulate(s[4..], Shifted(Shifted(Shifted(Shifted(buf, a), b), c), d), 0))
  {
    hide First, Second, Third, LowByte, Shifted, Accumulate, Prepend;
    AccumulateHead(s, buf, a, b);
    AccumulateTail(s[2..], buf, a, b, c, d);
    assert s[2..][2..] == s[4..];
    PrependTwice([First(a, b)], [Second(b, c), Third(c, d)],
                 Accumulate(s[4..], Shifted(Shifted(Shifted(Shifted(buf, a), b), c), d), 0));
    assert [First(a, b)] + [Second(b, c), Third(c, d)] == [First(a, b), Second(b, c), Third(c, d)];
  }

  lemma AccumulateOne(s: seq<bv8>, buf: bv32, bits: nat)
    requires s != [] && Sextet(s[0]).Some? && bits < 8
    ensures
      var b := Shifted(buf, Sextet(s[0]).value);
      Accumulate(s, buf, bits) ==
      if bits < 2 then Accumulate(s[1..], b, bits + 6)
      else Prepend([LowByte(b, bits - 2)], Accumulate(s[1..], b, bits - 2))
  {
    hide LowByte, Shifted;
  }

  /** The accumulator accepts exactly the strings over the alphabet. */
  lemma {:induction false} AccumulatorAccepts(s: seq<bv8>, buf: bv32, bits: nat)
    requires bits < 8
    ensures Accumulate(s, buf, bits).Some? <==> InAlphabet(s)
    decreases |s|
  {
    hide LowByte, Shifted, Sextet;
    if s != [] && Sextet(s[0]).Some? {
      var b := Shifted(buf, Sextet(s[0]).value);
      AccumulatorAccepts(s[1..], b, if bits < 2 then bits + 6 else bits - 2);
      assert forall i :: 1 <= i < |s| ==> s[1..][i - 1] == s[i];
    }
  }

  lemma AlphabetEmpty()
    ensures InAlphabet([])
  {
  }

  /** The block decoder also turns away a single left-over character. */
  lemma {:induction false} BlocksAccept(s: seq<bv8>)
    ensures Blocks(s).Some? <==> InAlphabet(s) && |s| % 4 != 1
    decreases |s|
  {
    hide First, Second, Third, Sextet, InAlphabet;
    if |s| >= 4 {
      BlocksAccept(s[4..]);
      AlphabetSplits(s, 4);
    } else if |s| == 0 {
      AlphabetEmpty();
    }
  }

  lemma AccumulateShort(s: seq<bv8>, buf: bv32)
    requires InAlphabet(s) && |s| < 4 && |s| != 1
    ensures Accumulate(s, buf, 0) == Blocks(s)
  {
    hide First, Second, Third, LowByte, Shifted;
    if |s| >= 2 {
      var a, b := Sextet(s[0]).value, Sextet(s[1]).value;
      AccumulateHead(s, buf, a, b);
      if |s| == 2 {
        assert s[2..] == [];
        assert [First(a, b)] + [] == [First(a, b)];
      } else {
        var c := Sextet(s[2]).value;
        AccumulateOne(s[2..], Shifted(Shifted(buf, a), b), 4);
        EmittedBytes(buf, a, b, c, 0);
        assert s[2..][1..] == [];
        assert [First(a, b)] + ([Second(b, c)] + []) == [First(a, b), Second(b, c)];
      }
    }
  }

  lemma {:induction false} DecodersAgreeFrom(s: seq<bv8>, buf: bv32)
    requires InAlphabet(s) && |s| % 4 != 1
    ensures Accumulate(s, buf, 0) == Blocks(s)
    decreases |s|
  {
    hide First, Second, Third, LowByte, Shifted, Accumulate, Blocks, Sextet;
    if |s| < 4 {
      AccumulateShort(s, buf);
    } else {
      AlphabetSplits(s, 4);
      var a, b, c, d := Sextet(s[0]).value, Sextet(s[1]).value, Sextet(s[2]).value, Sextet(s[3]).value;
      AccumulateBlock(s, buf, a, b, c, d);
      OneBlock(s, 0);
      assert s[0..] == s;
      DecodersAgreeFrom(s[4..], Shifted(Shifted(Shifted(Shifted(buf, a), b), c), d));
    }
  }

  lemma {:induction false} FilteredAppend(s: seq<bv8>, t: seq<bv8>)
    ensures Filtered(s + t) == Filtered(s) + Filtered(t)
    decreases |s|
  {
    if s == [] {
      assert s + t == t;
    } else {
      assert (s + t)[1..] == s[1..] + t;
      FilteredAppend(s[1..], t);
    }
  }

  /** Blanks, tabs, line feeds, form feeds, carriage returns and pads may stand
      anywhere in a text without changing it; every other character counts. */
  lemma IgnoredExactly(s: seq<bv8>, c: bv8, t: seq<bv8>)
    ensures Filtered(s + [c] + t) ==
            if c == 0x20 || c == 0x09 || c == 0x0A || c == 0x0C || c == 0x0D || c == 0x3D then Filtered(s + t)
            else Filtered(s) + [c] + Filtered(t)
  {
    hide Filtered;
    FilteredAppend(s + [c], t);
    FilteredAppend(s, [c]);
    FilteredAppend(s, t);
    FilteredOne(c);
    assert Filtered(s) + [] == Filtered(s);
  }

  lemma FilteredOne(c: bv8)
    ensures Filtered([c]) ==
            if c == 0x20 || c == 0x09 || c == 0x0A || c == 0x0C || c == 0x0D || c == 0x3D then [] else [c]
  {
    assert [c][1..] == [] && Filtered([]) == [];
  }

  lemma {:induction false} FilteredAlphabet(s: seq<bv8>)
    requires InAlphabet(s)
    ensures Filtered(s) == s
    decreases |s|
  {
    hide IsWhitespace;
    if s != [] {
      assert forall i :: 1 <= i < |s| ==> s[1..][i - 1] == s[i];
      FilteredAlphabet(s[1..]);
      assert Sextet(s[0]).Some?;
      assert s == [s[0]] + s[1..];
    }
  }

  lemma {:induction false} FilteredPads(t: seq<bv8>)
    requires forall i :: 0 <= i < |t| ==> t[i] == PAD
    ensures Filtered(t) == []
    decreases |t|
  {
    if t != [] { FilteredPads(t[1..]); }
  }

  /** On every input: the two decoders return the same bytes exactly when the
      text before trailing padding is over the alphabet and does not leave a
      single character over. */
  lemma DecodersAgreeExactly(input: seq<bv8>)
    ensures
      var t := TrimPad(input);
      var a, b := Accumulate(t, 0, 0), Blocks(Filtered(input));
      && (a.Some? <==> InAlphabet(t))
      && (a.Some? && b == a <==> InAlphabet(t) && |t| % 4 != 1)
  {
    hide Sextet, Accumulate, Blocks, Filtered;
    var t := TrimPad(input);
    AccumulatorAccepts(t, 0, 0);
    BlocksAccept(t);
    if InAlphabet(t) {
      var pads := input[|t|..];
      assert input == t + pads;
      FilteredAppend(t, pads);
      FilteredAlphabet(t);
      FilteredPads(pads);
      assert Filtered(input) == t;
      if |t| % 4 != 1 { DecodersAgreeFrom(t, 0); }
    }
  }

  // --------------------------------------------------------------- encoder

  /** The alphabet character of a six-bit value. */
  function Char(v: bv8): (c: bv8)
    requires v < 64
    ensures Sextet(c) == Some(v)
  {
    if v < 26 then v + 0x41
    else if v < 52 then v - 26 + 0x61
    else if v < 62 then v - 52 + 0x30
    else if v == 62 then 0x2B
    else 0x2F
  }

  function Packed(a: bv8, b: bv8, c: bv8): bv32 {
    ((a as bv32) << 16) | ((b as bv32) << 8) | (c as bv32)
  }

  /** The k-th of the four six-bit groups of 24 bits. */
  function Group(bits: bv32, k: nat): (v: bv8)
    requires k < 4
    ensures v < 64
  {
    if k == 0 then ((bits >> 18) & 0x3F) as bv8
    else if k == 1 then ((bits >> 12) & 0x3F) as bv8
    else if k == 2 then ((bits >> 6) & 0x3F) as bv8
    else (bits & 0x3F) as bv8
  }

  function Chars(bits: bv32, n: nat): (s: seq<bv8>)
    requires n <= 4
    ensures |s| == n
  {
    seq(n, k requires 0 <= k < n => Char(Group(bits, k)))
  }

  /** The encoding without padding. */
  function Unpadded(data: seq<bv8>): seq<bv8>
    decreases |data|
  {
    if |data| == 0 then []
    else if |data| == 1 then Chars(Packed(data[0], 0, 0), 2)
    else if |data| == 2 then Chars(Packed(data[0], data[1], 0), 3)
    else Chars(Packed(data[0], data[1], data[2]), 4) + Unpadded(data[3..])
  }

  function Padding(n: nat): seq<bv8> {
    if n % 3 == 1 then [PAD, PAD] else if n % 3 == 2 then [PAD] else []
  }

  /** The padded length is a whole number of fours, by the fewest pads. */
  lemma PaddedLength(data: seq<bv8>)
    ensures
      var s := Unpadded(data) + Padding(|data|);
      && |s| == 4 * ((|data| + 2) / 3)
      && |s| - |Unpadded(data)| <= 2
      && forall i :: |Unpadded(data)| <= i < |s| ==> s[i] == 0x3D
  {
    hide Unpadded;
    UnpaddedLength(data);
    PadsNeeded(|data|);
  }

  lemma PadsNeeded(n: nat)
    ensures (4 * n + 2) / 3 + (if n % 3 == 0 then 0 else 3 - n % 3) == 4 * ((n + 2) / 3)
  {
    var d := n / 3;
    assert n == 3 * d + n % 3;
  }

  method Encode(data: seq<bv8>) returns (s: seq<bv8>)
    ensures s == Unpadded(data) + Padding(|data|)
  {
    hide Chars, Packed, Group, Char, Unpadded;
    s := [];
    var i: nat := 0;
    assert data[0..] == data;
    while i + 3 <= |data|
      invariant i <= |data| && i % 3 == 0
      invariant Unpadded(data) == s + Unpadded(data[i..])
    {
      UnpaddedStep(data, i);
      var four := Chars(Packed(data[i], data[i + 1], data[i + 2]), 4);
      assert s + (four + Unpadded(data[i + 3..])) == (s + four) + Unpadded(data[i + 3..]);
      s := s + four;
      i := i + 3;
    }
    UnpaddedStep(data, i);
    match |data| - i {
      case 1 => s := s + Chars(Packed(data[i], 0, 0), 2) + [PAD, PAD];
      case 2 => s := s + Chars(Packed(data[i], data[i + 1], 0), 3) + [PAD];
      case _ => s := s + [] + [];
    }
  }

  lemma UnpaddedStep(data: seq<bv8>, i: nat)
    requires i <= |data|
    ensures
      var t := data[i..];
      Unpadded(t) ==
      if |t| == 0 then []
      else if |t| == 1 then Chars(Packed(data[i], 0, 0), 2)
      else if |t| == 2 then Chars(Packed(data[i], data[i + 1], 0), 3)
      else Chars(Packed(data[i], data[i + 1], data[i + 2]), 4) + Unpadded(data[i + 3..])
  {
    hide Chars, Packed;
    if i + 3 <= |data| { assert data[i..][3..] == data[i + 3..]; }
  }

  lemma UnpackBytes(a: bv8, b: bv8, c: bv8)
    ensures
      var bits := Packed(a, b, c);
      && First(Group(bits, 0), Group(bits, 1)) == a
      && Second(Group(bits, 1), Group(bits, 2)) == b
      && Third(Group(bits, 2), Group(bits, 3)) == c
  {
  }

  lemma {:induction false} UnpaddedInAlphabet(data: seq<bv8>)
    ensures InAlphabet(Unpadded(data)) && |Unpadded(data)| % 4 != 1
    decreases |data|
  {
    hide Sextet, Packed, Group;
    if |data| >= 3 { UnpaddedInAlphabet(data[3..]); }
  }

  /** The block decoder inverts the encoder. */
  lemma {:induction false} BlocksInvert(data: seq<bv8>)
    ensures Blocks(Unpadded(data)) == Some(data)
    decreases |data|
  {
    hide Sextet, First, Second, Third, Packed, Group, Blocks;
    var s := Unpadded(data);
    assert s[0..] == s;
    if |data| == 0 {
      LastBlock(s, 0);
    } else if |data| == 1 {
      UnpackBytes(data[0], 0, 0);
      LastBlock(s, 0);
      assert data == [data[0]];
    } else if |data| == 2 {
      UnpackBytes(data[0], data[1], 0);
      LastBlock(s, 0);
      assert data == [data[0], data[1]];
    } else {
      UnpackBytes(data[0], data[1], data[2]);
      BlocksInvert(data[3..]);
      OneBlock(s, 0);
      assert s[4..] == Unpadded(data[3..]);
      assert data == [data[0], data[1], data[2]] + data[3..];
    }
  }

  /** Both decoders read back every encoding, padded or not. */
  lemma BothDecodersInvert(data: seq<bv8>, pads: seq<bv8>)
    requires forall i :: 0 <= i < |pads| ==> pads[i] == PAD
    ensures
      var s := Unpadded(data) + pads;
      Accumulate(TrimPad(s), 0, 0) == Some(data) && Blocks(Filtered(s)) == Some(data)
  {
    hide Sextet, Accumulate, Blocks, Filtered, Unpadded;
    var u := Unpadded(data);
    UnpaddedInAlphabet(data);
    BlocksInvert(data);
    DecodersAgreeFrom(u, 0);
    TrimPadExactly(u, pads);
    DecodersAgreeExactly(u + pads);
  }

  lemma {:induction false} TrimPadExactly(s: seq<bv8>, pads: seq<bv8>)
    requires InAlphabet(s)
    requires forall i :: 0 <= i < |pads| ==> pads[i] == PAD
    ensures TrimPad(s + pads) == s
    decreases |pads|
  {
    if pads == [] {
      assert s + pads == s;
      if s != [] { assert Sextet(s[|s| - 1]).Some?; }
    } else {
      assert (s + pads)[..|s + pads| - 1] == s + pads[..|pads| - 1];
      TrimPadExactly(s, pads[..|pads| - 1]);
    }
  }

  // ------------------------------------------------------------ key parsing

  function HexValue(c: bv8): (v: Option<bv8>)
    ensures v.Some? ==> v.value < 16 && c != PAD
  {
    if 0x30 <= c <= 0x39 then Some(c - 0x30)
    else if 0x61 <= c <= 0x66 then Some(c - 0x61 + 10)
    else if 0x41 <= c <= 0x46 then Some(c - 0x41 + 10)
    else None
  }

  predicate IsHexKey(s: seq<bv8>) {
    |s| == 64 && forall i :: 0 <= i < 64 ==> HexValue(s[i]).Some?
  }

  function HexByte(s: seq<bv8>, i: nat): bv8
    requires IsHexKey(s) && i < 32
  {
    (HexValue(s[2 * i]).value << 4) | HexValue(s[2 * i + 1]).value
  }

  /** The 32-byte key a text denotes once surrounding whitespace is trimmed. */
  function Key(trimmed: seq<bv8>): Option<seq<bv8>> {
    if IsHexKey(trimmed) then Some(seq(32, i requires 0 <= i < 32 => HexByte(trimmed, i)))
    else
      match Blocks(Filtered(trimmed))
      case None => None
      case Some(data) => if |data| == 32 then Some(data) else None
  }

  method ParseKey(trimmed: seq<bv8>) returns (r: Option<seq<bv8>>)
    ensures r == Key(trimmed)
  {
    hide Blocks, HexValue;
    var hex := |trimmed| == 64 && forall i :: 0 <= i < 64 ==> HexValue(trimmed[i]).Some?;
    if hex {
      var out := new bv8[32](i => 0);
      for i := 0 to 32
        invariant forall j :: 0 <= j < i ==> out[j] == HexByte(trimmed, j)
      {
        out[i] := HexByte(trimmed, i);
      }
      assert out[..] == Key(trimmed).value;
      return Some(out[..]);
    }
    var decoded := DecodeBlocks(trimmed);
    if decoded.None? || |decoded.value| != 32 { return None; }
    r := decoded;
  }

  /** c is the hexadecimal digit v, in either case. */
  predicate IsDigit(c: bv8, v: bv8) {
    if v < 10 then c == 0x30 + v else v < 16 && (c == 0x61 + (v - 10) || c == 0x41 + (v - 10))
  }

  lemma HexValueExactly(c: bv8, v: bv8)
    ensures HexValue(c) == Some(v) <==> IsDigit(c, v)
  {
  }

  /** Two digits per byte, high one first, in any mixture of cases. */
  predicate Spells(s: seq<bv8>, key: seq<bv8>) {
    && |s| == 2 * |key|
    && forall i :: 0 <= i < |key| ==> IsDigit(s[2 * i], High(key[i])) && IsDigit(s[2 * i + 1], Low(key[i]))
  }

  function High(b: bv8): bv8 { b >> 4 }

  function Low(b: bv8): bv8 { b & 0x0F }

  /** Every 32-byte key is read back from each of its hex spellings. */
  lemma AnyHexSpelling(s: seq<bv8>, key: seq<bv8>)
    requires |key| == 32 && Spells(s, key)
    ensures Key(s) == Some(key)
  {
    hide HexValue, IsDigit, High, Low, Filtered, Blocks;
    forall i | 0 <= i < 32
      ensures HexValue(s[2 * i]) == Some(High(key[i])) && HexValue(s[2 * i + 1]) == Some(Low(key[i]))
    {
      HexValueExactly(s[2 * i], High(key[i]));
      HexValueExactly(s[2 * i + 1], Low(key[i]));
    }
    forall i | 0 <= i < 64 ensures HexValue(s[i]).Some? {
      var j := i / 2;
      assert 0 <= j < 32 && (i == 2 * j || i == 2 * j + 1);
      assert HexValue(s[2 * j]).Some? && HexValue(s[2 * j + 1]).Some?;
    }
    assert IsHexKey(s);
    forall i | 0 <= i < 32 ensures HexByte(s, i) == key[i] { HalvesJoin(key[i]); }
    assert Key(s).value == key;
  }

  lemma HalvesJoin(b: bv8)
    ensures (High(b) << 4) | Low(b) == b
  {
  }

  function HexDigit(v: bv8): (c: bv8)
    requires v < 16
    ensures HexValue(c) == Some(v)
  {
    if v < 10 then v + 0x30 else v - 10 + 0x61
  }

  function HighDigit(b: bv8): bv8 { HexDigit(b >> 4) }

  function LowDigit(b: bv8): bv8 { HexDigit(b & 0x0F) }

  /** A key spelled in lower-case hex. */
  function Hex(key: seq<bv8>): (s: seq<bv8>)
    ensures |s| == 2 * |key|
  {
    seq(2 * |key|, i requires 0 <= i < 2 * |key| =>
      if i % 2 == 0 then HighDigit(key[i / 2]) else LowDigit(key[i / 2]))
  }

  lemma DigitsJoin(b: bv8)
    ensures HexValue(HighDigit(b)).Some? && HexValue(LowDigit(b)).Some?
    ensures (HexValue(HighDigit(b)).value << 4) | HexValue(LowDigit(b)).value == b
  {
  }

  lemma {:induction false} UnpaddedLength(data: seq<bv8>)
    ensures |Unpadded(data)| == (4 * |data| + 2) / 3
    decreases |data|
  {
    hide Chars, Packed;
    if |data| >= 3 { UnpaddedLength(data[3..]); }
  }

  /** Every 32-byte key is read back from its hex spelling. */
  lemma HexKeyRoundTrip(key: seq<bv8>)
    requires |key| == 32
    ensures Key(Hex(key)) == Some(key)
  {
    hide HexValue, HighDigit, LowDigit, Filtered, Blocks;
    var hex := Hex(key);
    forall i | 0 <= i < 64 ensures HexValue(hex[i]).Some? { DigitsJoin(key[i / 2]); }
    assert IsHexKey(hex);
    forall i | 0 <= i < 32 ensures HexByte(hex, i) == key[i] {
      DigitsJoin(key[i]);
      assert hex[2 * i] == HighDigit(key[i]) && hex[2 * i + 1] == LowDigit(key[i]);
    }
    assert Key(hex).value == key;
  }

  /** Every 32-byte key is read back from its base64 spelling, padded or not. */
  lemma Base64KeyRoundTrip(key: seq<bv8>, pads: seq<bv8>)
    requires |key| == 32
    requires forall i :: 0 <= i < |pads| ==> pads[i] == PAD
    ensures Key(Unpadded(key) + pads) == Some(key)
  {
    hide Blocks, Filtered, Accumulate, Unpadded, HexValue;
    var s := Unpadded(key) + pads;
    UnpaddedLength(key);
    if |s| == 64 { assert HexValue(s[63]).None?; }
    BothDecodersInvert(key, pads);
  }
}
