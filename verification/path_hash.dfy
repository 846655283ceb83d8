/** Decorated path hashing of the test engine (ImHashDecoratedPath).

    A widget path such as "Window/Child/Button" is hashed byte by byte with
    the reflected CRC-32 (polynomial 0xEDB88320) on top of which three
    textual rules are layered: an unescaped '/' is skipped, a backslash makes
    the next byte hash literally, and a '#' followed by "##" resets the
    running value to the initial (complemented) seed before it is hashed.
    The input is the byte content of a zero-terminated C string, without the
    terminator. */
module PathHash {

  type byte = bv8

  const POLYNOMIAL: bv32 := 0xEDB88320
  const SLASH: byte := 0x2F
  const BACKSLASH: byte := 0x5C
  const HASH: byte := 0x23
  /** Rounds of the bit loop per byte. */
  const BITS_PER_BYTE: nat := 8

  // ---------------------------------------------------------------------
  // The CRC-32 lookup table
  // ---------------------------------------------------------------------

  /** One round of the table generator: shift right, and xor in the
      polynomial when the bit shifted out was set. The mask is built as the
      source builds it, by negating the low bit. */
  function CrcRound(crc: bv32): bv32 {
    (crc >> 1) ^ ((0 - (crc & 1)) & POLYNOMIAL)
  }

  /** `n` rounds of CrcRound applied to `x`. */
  function CrcRounds(x: bv32, n: nat): bv32 {
    if n == 0 then x else CrcRound(CrcRounds(x, n - 1))
  }

  /** Entry `i` of the lookup table: eight rounds starting from `i`. */
  function TableEntry(i: byte): bv32 {
    CrcRounds(i as bv32, BITS_PER_BYTE)
  }

  /** The inner loop of the table generator: eight rounds from `i`. */
  method ComputeTableEntry(i: byte) returns (crc: bv32)
    ensures crc == TableEntry(i)
  {
    crc := i as bv32;
    var j := 0;
    while j < 8
      invariant 0 <= j <= 8
      invariant crc == CrcRounds(i as bv32, j)
    {
      crc := CrcRound(crc);
      j := j + 1;
    }
  }

  /** The lazily built 256-entry table. Entry 1 is non-zero, which is what the
      lazy initialisation tests to decide whether the table is built. */
  method BuildCrc32Table() returns (lut: seq<bv32>)
    ensures |lut| == 256
    ensures forall i :: 0 <= i < 256 ==> lut[i] == TableEntry(i as byte)
    ensures lut[0] == 0 && lut[1] != 0
  {
    lut := [];
    var i := 0;
    while i < 256
      invariant 0 <= i <= 256 && |lut| == i
      invariant forall k :: 0 <= k < i ==> lut[k] == TableEntry(k as byte)
    {
      var crc := ComputeTableEntry(i as byte);
      lut := lut + [crc];
      i := i + 1;
    }
    TableEntryOne();
  }

  /** Entries 0 and 1 of the table; 0x77073096 is the well-known first
      non-trivial entry of the reflected CRC-32 table. */
  lemma TableEntryOne()
    ensures TableEntry(0) == 0
    ensures TableEntry(1) == 0x77073096
  {
    assert CrcRounds(0, 8) == 0;
    assert CrcRounds(1, 1) == 0xEDB88320;
    assert CrcRounds(1, 2) == 0x76DC4190;
    assert CrcRounds(1, 3) == 0x3B6E20C8;
    assert CrcRounds(1, 4) == 0x1DB71064;
    assert CrcRounds(1, 5) == 0x0EDB8832;
    assert CrcRounds(1, 6) == 0x076DC419;
    assert CrcRounds(1, 7) == 0xEE0E612C;
    assert CrcRounds(1, 8) == 0x77073096;
  }

  // ---------------------------------------------------------------------
  // Reference CRC-32 (table-driven, as in section 8 of RFC 1952)
  // ---------------------------------------------------------------------

  /** The table-driven update of the running value by one byte. */
  function Crc32Step(crc: bv32, c: byte): bv32 {
    (crc >> 8) ^ TableEntry(((crc & 0xFF) as byte) ^ c)
  }

  /** Feeds `data` into the running value `crc`. */
  function Crc32Raw(crc: bv32, data: seq<byte>): bv32
    decreases |data|
  {
    if |data| == 0 then crc else Crc32Raw(Crc32Step(crc, data[0]), data[1..])
  }

  /** Standard CRC-32 of `data`: start from the complemented seed and
      complement the result. With seed 0 this is the CRC of RFC 1952. */
  function Crc32(data: seq<byte>, seed: bv32): bv32 {
    !Crc32Raw(!seed, data)
  }

  /** The published check value of CRC-32: the CRC of the ASCII string
      "123456789" is 0xCBF43926. The assertions are the table entries the
      computation visits. */
  lemma Crc32CheckValue()
    ensures Crc32([0x31, 0x32, 0x33, 0x34, 0x35, 0x36, 0x37, 0x38, 0x39], 0) == 0xCBF43926
  {
    assert CrcRounds(0xCE, 8) == 0x7CDCEFB7;
    assert CrcRounds(0x7A, 8) == 0xB0D09822;
    assert CrcRounds(0x01, 8) == 0x77073096;
    assert CrcRounds(0x19, 8) == 0x646BA8C0;
    assert CrcRounds(0x69, 8) == 0x346ED9FC;
    assert CrcRounds(0xD5, 8) == 0xF6B9265B;
    assert CrcRounds(0xA9, 8) == 0xAF0A1B4C;
    assert CrcRounds(0x58, 8) == 0x65B0D9C6;
    assert CrcRounds(0x69, 8) == 0x346ED9FC;
  }

  // ---------------------------------------------------------------------
  // The decorated path hash
  // ---------------------------------------------------------------------

  /** The loop state of the hash: the running value and whether the
      previous byte was an escaping backslash. */
  datatype HashState = HashState(crc: bv32, inhibit: bool)

  /** True when `rest` starts with "###". */
  predicate StartsReset(rest: seq<byte>) {
    |rest| >= 3 && rest[0] == HASH && rest[1] == HASH && rest[2] == HASH
  }

  /** One iteration of the loop on byte `c`; `resetHere` says whether `c`
      begins a "###" in the raw input. The reset test does not look at the
      escape state. */
  function Feed(init: bv32, st: HashState, c: byte, resetHere: bool): HashState {
    if c == BACKSLASH && !st.inhibit then HashState(st.crc, true)
    else if c == SLASH && !st.inhibit then HashState(st.crc, false)
    else
      var base := if c == HASH && resetHere then init else st.crc;
      HashState(Crc32Step(base, c), false)
  }

  /** Runs the loop over the remaining bytes `rest`. */
  function HashFrom(rest: seq<byte>, init: bv32, st: HashState): HashState
    decreases |rest|
  {
    if |rest| == 0 then st
    else HashFrom(rest[1..], init, Feed(init, st, rest[0], StartsReset(rest)))
  }

  /** The seed actually used: a leading '/' anchors the path at the root. */
  function EffectiveSeed(str: seq<byte>, seed: bv32): bv32 {
    if |str| > 0 && str[0] == SLASH then 0 else seed
  }

  /** The loop run over the whole of `str` from the initial value `init`,
      complemented at the end. */
  function HashWithInit(str: seq<byte>, init: bv32): bv32 {
    !HashFrom(str, init, HashState(init, false)).crc
  }

  /** The hash of the path `str` under `seed`. */
  function HashDecoratedPath(str: seq<byte>, seed: bv32): bv32 {
    HashWithInit(str, !EffectiveSeed(str, seed))
  }

  lemma HashFromAt(str: seq<byte>, i: nat, init: bv32, st: HashState)
    requires i < |str|
    ensures HashFrom(str[i..], init, st)
         == HashFrom(str[i + 1..], init, Feed(init, st, str[i], StartsReset(str[i..])))
    ensures StartsReset(str[i..])
        <==> (str[i] == HASH && i + 2 < |str| && str[i + 1] == HASH && str[i + 2] == HASH)
  {
    assert str[i..][1..] == str[i + 1..];
  }

  lemma TableLookup(lut: seq<bv32>, crc: bv32, c: byte)
    requires |lut| == 256
    requires forall i :: 0 <= i < 256 ==> lut[i] == TableEntry(i as byte)
    ensures (crc >> 8) ^ lut[(((crc & 0xFF) as byte) ^ c) as int] == Crc32Step(crc, c)
  {
    var idx := ((crc & 0xFF) as byte) ^ c;
    assert (idx as int) as byte == idx;
  }

  /** The body of the source loop for one byte `c`; `resetHere` is the
      source's look-ahead test for "###". */
  method HashByte(lut: seq<bv32>, init: bv32, crc: bv32, inhibit: bool, c: byte, resetHere: bool)
    returns (crc': bv32, inhibit': bool)
    requires |lut| == 256
    requires forall i :: 0 <= i < 256 ==> lut[i] == TableEntry(i as byte)
    ensures HashState(crc', inhibit') == Feed(init, HashState(crc, inhibit), c, resetHere)
  {
    crc', inhibit' := crc, inhibit;
    if c == BACKSLASH && !inhibit {
      inhibit' := true;
      return;
    }
    if c == SLASH && !inhibit {
      inhibit' := false;
      return;
    }
    if c == HASH && resetHere {
      crc' := init;
    }
    TableLookup(lut, crc', c);
    crc' := (crc' >> 8) ^ lut[(((crc' & 0xFF) as byte) ^ c) as int];
    inhibit' := false;
  }

  /** The scanning loop of the source, from the initial value `init`. */
  method HashLoop(lut: seq<bv32>, str: seq<byte>, init: bv32) returns (crc: bv32)
    requires |lut| == 256
    requires forall i :: 0 <= i < 256 ==> lut[i] == TableEntry(i as byte)
    ensures crc == HashFrom(str, init, HashState(init, false)).crc
  {
    crc := init;
    var inhibit := false;
    var i := 0;
    assert str[0..] == str;
    while i < |str|
      invariant 0 <= i <= |str|
      invariant HashFrom(str[i..], init, HashState(crc, inhibit)) == HashFrom(str, init, HashState(init, false))
    {
      var c := str[i];
      HashFromAt(str, i, init, HashState(crc, inhibit));
      i := i + 1;
      var resetHere := c == HASH && i + 1 < |str| && str[i] == HASH && str[i + 1] == HASH;
      crc, inhibit := HashByte(lut, init, crc, inhibit, c, resetHere);
    }
    assert str[i..] == [];
  }

  /** The function of the source: build the table, pick the seed, run the
      loop and complement. It computes the decorated path hash. The loop
      stops at the terminator, so the bytes given contain no 0. */
  method ImHashDecoratedPath(str: seq<byte>, seed: bv32) returns (r: bv32)
    requires forall i :: 0 <= i < |str| ==> str[i] != 0
    ensures r == HashDecoratedPath(str, seed)
  {
    var lut := BuildCrc32Table();
    var s := !EffectiveSeed(str, seed);
    var crc := HashLoop(lut, str, s);
    r := !crc;
  }

  // ---------------------------------------------------------------------
  // Properties
  // ---------------------------------------------------------------------

  lemma HashUnderSeed(s: seq<byte>, seed: bv32)
    requires EffectiveSeed(s, seed) == seed
    ensures HashDecoratedPath(s, seed) == HashWithInit(s, !seed)
  {
  }

  lemma SameEffectiveSeed(s: seq<byte>, a: bv32, b: bv32)
    requires EffectiveSeed(s, a) == EffectiveSeed(s, b)
    ensures HashDecoratedPath(s, a) == HashDecoratedPath(s, b)
  {
  }

  lemma SameRunSameHash(a: seq<byte>, b: seq<byte>, seed: bv32)
    requires EffectiveSeed(a, seed) == seed && EffectiveSeed(b, seed) == seed
    requires HashWithInit(a, !seed) == HashWithInit(b, !seed)
    ensures HashDecoratedPath(a, seed) == HashDecoratedPath(b, seed)
  {
    HashUnderSeed(a, seed);
    HashUnderSeed(b, seed);
  }

  /** True when `b` is one of the three decoration bytes. */
  predicate IsSpecial(b: byte) {
    b == SLASH || b == BACKSLASH || b == HASH
  }

  /** No backslash and no '#' in `s` (stated recursively, which keeps the
      solver away from matching loops between indices and bit-vectors). */
  predicate NoEscapeOrHash(s: seq<byte>)
    decreases |s|
  {
    |s| == 0 || (s[0] != BACKSLASH && s[0] != HASH && NoEscapeOrHash(s[1..]))
  }

  /** No decoration byte at all in `s`. */
  predicate Undecorated(s: seq<byte>)
    decreases |s|
  {
    |s| == 0 || (!IsSpecial(s[0]) && Undecorated(s[1..]))
  }

  /** `s` without its '/' bytes. */
  function RemoveSlashes(s: seq<byte>): seq<byte>
    decreases |s|
  {
    if |s| == 0 then []
    else if s[0] == SLASH then RemoveSlashes(s[1..])
    else [s[0]] + RemoveSlashes(s[1..])
  }

  /** `t` with a backslash placed before every decoration byte. */
  function EscapeSpecials(t: seq<byte>): seq<byte>
    decreases |t|
  {
    if |t| == 0 then []
    else if IsSpecial(t[0]) then [BACKSLASH, t[0]] + EscapeSpecials(t[1..])
    else [t[0]] + EscapeSpecials(t[1..])
  }

  lemma {:induction false} HashFromWithoutEscapes(r: seq<byte>, init: bv32, crc: bv32)
    requires NoEscapeOrHash(r)
    ensures HashFrom(r, init, HashState(crc, false)) == HashState(Crc32Raw(crc, RemoveSlashes(r)), false)
    decreases |r|
  {
    if |r| > 0 {
      HashFromWithoutEscapes(r[1..], init, if r[0] == SLASH then crc else Crc32Step(crc, r[0]));
    }
  }

  /** Without backslashes and '#', the hash is the standard CRC-32 of the
      path with its separators removed; a leading '/' replaces the seed by 0.
      In particular "Hello/world" hashes like "Helloworld". */
  lemma SlashesAreTransparent(s: seq<byte>, seed: bv32)
    requires NoEscapeOrHash(s)
    ensures HashDecoratedPath(s, seed) == Crc32(RemoveSlashes(s), EffectiveSeed(s, seed))
  {
    var init := !EffectiveSeed(s, seed);
    HashFromWithoutEscapes(s, init, init);
  }

  lemma {:induction false} UndecoratedFacts(s: seq<byte>)
    requires Undecorated(s)
    ensures NoEscapeOrHash(s)
    ensures RemoveSlashes(s) == s
    decreases |s|
  {
    if |s| > 0 {
      UndecoratedFacts(s[1..]);
    }
  }

  /** A path with no decoration bytes hashes to its standard CRC-32. */
  lemma UndecoratedPathIsCrc32(s: seq<byte>, seed: bv32)
    requires Undecorated(s)
    ensures HashDecoratedPath(s, seed) == Crc32(s, seed)
  {
    UndecoratedFacts(s);
    SlashesAreTransparent(s, seed);
  }

  /** A path starting with '/' ignores the caller's seed. */
  lemma RootAnchorIgnoresSeed(s: seq<byte>, seed: bv32)
    requires |s| > 0 && s[0] == SLASH
    ensures HashDecoratedPath(s, seed) == HashDecoratedPath(s, 0)
  {
  }

  lemma EscapeSpecialsHead(t: seq<byte>)
    requires |t| > 0
    ensures |EscapeSpecials(t)| > 0
    ensures EscapeSpecials(t)[0] == (if IsSpecial(t[0]) then BACKSLASH else t[0])
  {
  }

  lemma {:induction false} HashFromEscaped(t: seq<byte>, init: bv32, crc: bv32)
    ensures HashFrom(EscapeSpecials(t), init, HashState(crc, false)) == HashState(Crc32Raw(crc, t), false)
    decreases |t|
  {
    if |t| > 0 {
      var e := EscapeSpecials(t);
      var tail := EscapeSpecials(t[1..]);
      if |t| > 1 {
        EscapeSpecialsHead(t[1..]);
      }
      if IsSpecial(t[0]) {
        assert e == [BACKSLASH, t[0]] + tail;
        assert e[1..] == [t[0]] + tail;
        assert e[1..][1..] == tail;
        assert !StartsReset(e[1..]);
        assert HashFrom(e, init, HashState(crc, false))
            == HashFrom(e[1..], init, HashState(crc, true));
        assert HashFrom(e[1..], init, HashState(crc, true))
            == HashFrom(tail, init, HashState(Crc32Step(crc, t[0]), false));
      } else {
        assert e == [t[0]] + tail;
        assert e[1..] == tail;
      }
      HashFromEscaped(t[1..], init, Crc32Step(crc, t[0]));
    }
  }

  lemma EscapeSpecialsKeepsSeed(t: seq<byte>, seed: bv32)
    ensures EffectiveSeed(EscapeSpecials(t), seed) == seed
  {
    if |t| > 0 {
      EscapeSpecialsHead(t);
    }
  }

  lemma HashOfEscaped(t: seq<byte>, seed: bv32)
    requires EffectiveSeed(EscapeSpecials(t), seed) == seed
    ensures HashDecoratedPath(EscapeSpecials(t), seed) == Crc32(t, seed)
  {
    HashUnderSeed(EscapeSpecials(t), seed);
    HashFromEscaped(t, !seed, !seed);
  }

  /** Escaping every decoration byte makes any byte string hash literally:
      "Hello\\/world" hashes to the plain CRC-32 of "Hello/world". */
  lemma EscapedPathHashesLiterally(t: seq<byte>, seed: bv32)
    ensures HashDecoratedPath(EscapeSpecials(t), seed) == Crc32(t, seed)
  {
    EscapeSpecialsKeepsSeed(t, seed);
    HashOfEscaped(t, seed);
  }

  lemma {:induction false} ResetFrom(x: seq<byte>, r: seq<byte>, init: bv32, st: HashState)
    requires StartsReset(r)
    ensures HashFrom(x + r, init, st) == HashFrom(r, init, HashState(init, false))
    decreases |x|
  {
    if |x| == 0 {
      assert x + r == r;
    } else {
      var s := x + r;
      assert s[0] == x[0];
      assert s[1..] == x[1..] + r;
      ResetFrom(x[1..], r, init, Feed(init, st, s[0], StartsReset(s)));
    }
  }

  lemma ResetFromStart(x: seq<byte>, r: seq<byte>, init: bv32)
    requires StartsReset(r)
    ensures HashFrom(x + r, init, HashState(init, false)) == HashFrom(r, init, HashState(init, false))
  {
    ResetFrom(x, r, init, HashState(init, false));
    ResetFrom([], r, init, HashState(init, false));
    assert [] + r == r;
  }

  lemma HashOfReset(x: seq<byte>, r: seq<byte>, seed: bv32)
    requires StartsReset(r)
    requires EffectiveSeed(x + r, seed) == seed && EffectiveSeed(r, seed) == seed
    ensures HashDecoratedPath(x + r, seed) == HashDecoratedPath(r, seed)
  {
    ResetFromStart(x, r, !seed);
    SameRunSameHash(x + r, r, seed);
  }

  /** "###" discards everything hashed before it, whatever the escape state
      when the first '#' is read: only the seed and the text from "###" on
      matter. The three '#' themselves are hashed. */
  lemma ResetDiscardsPrefix(x: seq<byte>, y: seq<byte>, seed: bv32)
    requires |x| == 0 || x[0] != SLASH
    ensures HashDecoratedPath(x + [HASH, HASH, HASH] + y, seed)
         == HashDecoratedPath([HASH, HASH, HASH] + y, seed)
  {
    var r := [HASH, HASH, HASH] + y;
    assert x + [HASH, HASH, HASH] + y == x + r;
    assert (x + r)[0] == if |x| == 0 then HASH else x[0];
    HashOfReset(x, r, seed);
  }

  lemma {:induction false} HashFromAppend(r: seq<byte>, x: byte, init: bv32, st: HashState)
    requires x != HASH
    ensures HashFrom(r + [x], init, st) == Feed(init, HashFrom(r, init, st), x, false)
    decreases |r|
  {
    if |r| == 0 {
      assert r + [x] == [x];
    } else {
      var s := r + [x];
      assert s[0] == r[0];
      assert s[1..] == r[1..] + [x];
      assert StartsReset(s) == StartsReset(r);
      HashFromAppend(r[1..], x, init, Feed(init, st, r[0], StartsReset(r)));
    }
  }

  /** The escape state left after hashing the whole path `s`. */
  function EndsEscaping(s: seq<byte>, seed: bv32): bool {
    var init := !EffectiveSeed(s, seed);
    HashFrom(s, init, HashState(init, false)).inhibit
  }

  lemma HashOfAppendedBackslash(s: seq<byte>, seed: bv32)
    requires EffectiveSeed(s + [BACKSLASH], seed) == EffectiveSeed(s, seed)
    requires !EndsEscaping(s, seed)
    ensures HashDecoratedPath(s + [BACKSLASH], seed) == HashDecoratedPath(s, seed)
  {
    var e := EffectiveSeed(s, seed);
    HashFromAppend(s, BACKSLASH, !e, HashState(!e, false));
    SameRunSameHash(s + [BACKSLASH], s, e);
    SameEffectiveSeed(s, seed, e);
    SameEffectiveSeed(s + [BACKSLASH], seed, e);
  }

  /** A trailing backslash that escapes nothing contributes nothing. */
  lemma TrailingBackslashIgnored(s: seq<byte>, seed: bv32)
    requires !EndsEscaping(s, seed)
    ensures HashDecoratedPath(s + [BACKSLASH], seed) == HashDecoratedPath(s, seed)
  {
    if |s| > 0 {
      assert (s + [BACKSLASH])[0] == s[0];
    }
    HashOfAppendedBackslash(s, seed);
  }
}
