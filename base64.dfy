/**
 * `CBase64`: Base64 with a fixed, permuted 64-character alphabet. The bit
 * layout is that of section 4 of RFC 4648 (three bytes become four 6-bit
 * indices, the last group padded with "="); only the alphabet differs.
 */
module Base64 {
  import opened Wrappers
  import opened Strings

  type Byte = x: int | 0 <= x < 256

  /** The alphabet, written in eight groups of eight so that its facts can be checked group by group. */
  const Block0: string := "987XWVU6"
  const Block1: string := "543zyx/w"
  const Block2: string := "vro210nm"
  const Block3: string := "lkji+hed"
  const Block4: string := "FEDCcbaZ"
  const Block5: string := "YTSRQPut"
  const Block6: string := "sONgfMLK"
  const Block7: string := "qpJIHGBA"
  const Alphabet: string := ((Block0 + Block1) + (Block2 + Block3)) + ((Block4 + Block5) + (Block6 + Block7))
  const Padding: char := '='

  /**
   * Each character's place in the alphabet, computed from its place in the
   * standard RFC 4648 alphabet (A-Z, a-z, 0-9, "+", "/") through the
   * permutation below: a certificate that the 64 characters are distinct,
   * which the class asserts when it loads.
   */
  ghost function StandardRank(c: char): int {
    if 'A' <= c <= 'Z' then c as int - 'A' as int
    else if 'a' <= c <= 'z' then c as int - 'a' as int + 26
    else if '0' <= c <= '9' then c as int - '0' as int + 52
    else if c == '+' then 62
    else if c == '/' then 63
    else -1
  }

  /** Where the k-th standard character sits in the alphabet, eight entries at a time. */
  ghost const Position0: seq<int> := [63, 62, 35, 34, 33, 32, 61, 60]
  ghost const Position1: seq<int> := [59, 58, 55, 54, 53, 50, 49, 45]
  ghost const Position2: seq<int> := [44, 43, 42, 41, 6, 5, 4, 3]
  ghost const Position3: seq<int> := [40, 39, 38, 37, 36, 31, 30, 52]
  ghost const Position4: seq<int> := [51, 29, 27, 26, 25, 24, 23, 22]
  ghost const Position5: seq<int> := [18, 57, 56, 17, 48, 47, 46, 16]
  ghost const Position6: seq<int> := [15, 13, 12, 11, 21, 20, 19, 10]
  ghost const Position7: seq<int> := [9, 8, 7, 2, 1, 0, 28, 14]

  ghost function Position(k: int): int {
    if k < 0 then -1
    else if k < 8 then Position0[k]
    else if k < 16 then Position1[k - 8]
    else if k < 24 then Position2[k - 16]
    else if k < 32 then Position3[k - 24]
    else if k < 40 then Position4[k - 32]
    else if k < 48 then Position5[k - 40]
    else if k < 56 then Position6[k - 48]
    else if k < 64 then Position7[k - 56]
    else -1
  }

  ghost function Rank(c: char): int {
    Position(StandardRank(c))
  }

  lemma {:induction false} RankBlock0()
    ensures forall i | 0 <= i < 8 :: Rank(Block0[i]) == 0 + i
  {
    forall i | 0 <= i < 8
      ensures Rank(Block0[i]) == 0 + i
    {
      assert i == 0 || i == 1 || i == 2 || i == 3 || i == 4 || i == 5 || i == 6 || i == 7;
    }
  }

  lemma {:induction false} RankBlock1()
    ensures forall i | 0 <= i < 8 :: Rank(Block1[i]) == 8 + i
  {
    forall i | 0 <= i < 8
      ensures Rank(Block1[i]) == 8 + i
    {
      assert i == 0 || i == 1 || i == 2 || i == 3 || i == 4 || i == 5 || i == 6 || i == 7;
    }
  }

  lemma {:induction false} RankBlock2()
    ensures forall i | 0 <= i < 8 :: Rank(Block2[i]) == 16 + i
  {
    forall i | 0 <= i < 8
      ensures Rank(Block2[i]) == 16 + i
    {
      assert i == 0 || i == 1 || i == 2 || i == 3 || i == 4 || i == 5 || i == 6 || i == 7;
    }
  }

  lemma {:induction false} RankBlock3()
    ensures forall i | 0 <= i < 8 :: Rank(Block3[i]) == 24 + i
  {
    forall i | 0 <= i < 8
      ensures Rank(Block3[i]) == 24 + i
    {
      assert i == 0 || i == 1 || i == 2 || i == 3 || i == 4 || i == 5 || i == 6 || i == 7;
    }
  }

  lemma {:induction false} RankBlock4()
    ensures forall i | 0 <= i < 8 :: Rank(Block4[i]) == 32 + i
  {
    forall i | 0 <= i < 8
      ensures Rank(Block4[i]) == 32 + i
    {
      assert i == 0 || i == 1 || i == 2 || i == 3 || i == 4 || i == 5 || i == 6 || i == 7;
    }
  }

  lemma {:induction false} RankBlock5()
    ensures forall i | 0 <= i < 8 :: Rank(Block5[i]) == 40 + i
  {
    forall i | 0 <= i < 8
      ensures Rank(Block5[i]) == 40 + i
    {
      assert i == 0 || i == 1 || i == 2 || i == 3 || i == 4 || i == 5 || i == 6 || i == 7;
    }
  }

  lemma {:induction false} RankBlock6()
    ensures forall i | 0 <= i < 8 :: Rank(Block6[i]) == 48 + i
  {
    forall i | 0 <= i < 8
      ensures Rank(Block6[i]) == 48 + i
    {
      assert i == 0 || i == 1 || i == 2 || i == 3 || i == 4 || i == 5 || i == 6 || i == 7;
    }
  }

  lemma {:induction false} RankBlock7()
    ensures forall i | 0 <= i < 8 :: Rank(Block7[i]) == 56 + i
  {
    forall i | 0 <= i < 8
      ensures Rank(Block7[i]) == 56 + i
    {
      assert i == 0 || i == 1 || i == 2 || i == 3 || i == 4 || i == 5 || i == 6 || i == 7;
    }
  }

  lemma {:induction false} RankOfAlphabet()
    ensures |Alphabet| == 64
    ensures forall i | 0 <= i < 64 :: Rank(Alphabet[i]) == i
  {
    RankBlock0();
    RankBlock1();
    RankBlock2();
    RankBlock3();
    RankBlock4();
    RankBlock5();
    RankBlock6();
    RankBlock7();
    forall i | 0 <= i < 64
      ensures Rank(Alphabet[i]) == i
    {
      if i < 8 {
        assert Alphabet[i] == Block0[i - 0];
      } else if i < 16 {
        assert Alphabet[i] == Block1[i - 8];
      } else if i < 24 {
        assert Alphabet[i] == Block2[i - 16];
      } else if i < 32 {
        assert Alphabet[i] == Block3[i - 24];
      } else if i < 40 {
        assert Alphabet[i] == Block4[i - 32];
      } else if i < 48 {
        assert Alphabet[i] == Block5[i - 40];
      } else if i < 56 {
        assert Alphabet[i] == Block6[i - 48];
      } else if i < 64 {
        assert Alphabet[i] == Block7[i - 56];
      }
    }
  }

  /** What the class asserts of its table when it loads: 64 distinct characters, none of them "=". */
  predicate ValidAlphabet(alphabet: string) {
    && |alphabet| == 64
    && (forall i, j | 0 <= i < j < 64 :: alphabet[i] != alphabet[j])
    && Padding !in alphabet
  }

  /** The class-load assertions hold of the class's own table. */
  lemma {:induction false} AlphabetDistinct()
    ensures ValidAlphabet(Alphabet)
  {
    RankOfAlphabet();
  }

  /** `_ENCODE_MAP` */
  function EncodeChar(alphabet: string, v: nat): char
    requires |alphabet| == 64
    requires v < 64
  {
    alphabet[v]
  }

  /** `_DECODE_MAP`: a character's position in the alphabet, if it has one. */
  function DecodeChar(alphabet: string, c: char): (r: Option<nat>)
    ensures r.None? <==> c !in alphabet
    ensures r.Some? ==> r.value < |alphabet| && alphabet[r.value] == c
  {
    IndexOf(alphabet, c)
  }

  /** The two maps are mutually inverse. */
  lemma {:induction false} CharMapsInverse(alphabet: string, v: nat, c: char)
    requires ValidAlphabet(alphabet)
    requires v < 64
    ensures DecodeChar(alphabet, EncodeChar(alphabet, v)) == Some(v)
    ensures DecodeChar(alphabet, c).Some? ==> EncodeChar(alphabet, DecodeChar(alphabet, c).value) == c
  {
  }

  // ----------------------------------------------------------------- encode

  /** The index characters of one group of one to three bytes, padding not included. */
  function GroupChars(alphabet: string, g: seq<Byte>): (r: string)
    requires |alphabet| == 64
    requires 1 <= |g| <= 3
    ensures |r| == |g| + 1
  {
    seq(|g| + 1, j requires 0 <= j <= |g| => EncodeChar(alphabet, Sextet(g, j)))
  }

  /**
   * The j-th 6-bit field of a group of one to three bytes, the bytes past
   * the group's end read as zero: `b1 >> 2`, `((b1 & 3) << 4) | (b2 >> 4)`,
   * `((b2 & 15) << 2) | (b3 >> 6)` and `b3 & 63`. (The source combines the
   * fields with `|`; they never overlap, so `+` computes the same value.)
   */
  function Sextet(g: seq<Byte>, j: nat): (r: nat)
    requires 1 <= |g| <= 3 && j <= |g|
    ensures r < 64
  {
    var b1 := g[0];
    var b2 := if |g| >= 2 then g[1] else 0;
    var b3 := if |g| == 3 then g[2] else 0;
    if j == 0 then b1 / 4
    else if j == 1 then b1 % 4 * 16 + b2 / 16
    else if j == 2 then b2 % 16 * 4 + b3 / 64
    else b3 % 64
  }

  /** The "=" characters that complete a short final group to four characters. */
  function Pad(n: nat): string
    requires n <= 2
  {
    seq(n, _ => Padding)
  }

  /** One group as the encoder appends it: its index characters, then "=" up to four characters. */
  function EncodeGroup(alphabet: string, g: seq<Byte>): string
    requires |alphabet| == 64
    requires 1 <= |g| <= 3
  {
    GroupChars(alphabet, g) + Pad(3 - |g|)
  }

  /** How many bytes the next group takes: three, or what is left. */
  function GroupSize(n: nat): nat {
    if n < 3 then n else 3
  }

  /** `encode`: the data in groups of three, each group encoded in turn. */
  function Encode(alphabet: string, data: seq<Byte>): string
    requires |alphabet| == 64
    decreases |data|
  {
    if data == [] then ""
    else
      var k := GroupSize(|data|);
      EncodeGroup(alphabet, data[..k]) + Encode(alphabet, data[k..])
  }

  /** The index characters of every group, with no padding at all. */
  function Unpadded(alphabet: string, data: seq<Byte>): string
    requires |alphabet| == 64
    decreases |data|
  {
    if data == [] then ""
    else
      var k := GroupSize(|data|);
      GroupChars(alphabet, data[..k]) + Unpadded(alphabet, data[k..])
  }

  /** The number of "=" the encoder appends: 2, 1 or 0 as the length is 1, 2 or 0 modulo 3. */
  function PadCount(n: nat): nat {
    if n % 3 == 0 then 0 else 3 - n % 3
  }

  /** One step of `Encode` and `Unpadded`: the first group, then the rest. */
  lemma {:induction false} EncodeUnfold(alphabet: string, data: seq<Byte>)
    requires |alphabet| == 64
    requires data != []
    ensures var k := GroupSize(|data|);
      && Encode(alphabet, data) == GroupChars(alphabet, data[..k]) + Pad(3 - k) + Encode(alphabet, data[k..])
      && Unpadded(alphabet, data) == GroupChars(alphabet, data[..k]) + Unpadded(alphabet, data[k..])
  {
  }

  /** The padding count and the group count, one group further on. */
  lemma {:induction false} PadCountStep(n: nat)
    ensures n >= 3 ==> PadCount(n - 3) == PadCount(n) && (n + 2) / 3 == (n - 1) / 3 + 1
    ensures n < 3 ==> PadCount(n) == (if n == 0 then 0 else 3 - n)
  {
  }

  /** Padding appears only once, at the end of the last group. */
  lemma {:induction false} EncodeIsUnpaddedThenPad(alphabet: string, data: seq<Byte>)
    requires |alphabet| == 64
    ensures PadCount(|data|) <= 2
    ensures Encode(alphabet, data) == Unpadded(alphabet, data) + Pad(PadCount(|data|))
    decreases |data|
  {
    PadCountStep(|data|);
    if data != [] {
      var k := GroupSize(|data|);
      var rest := data[k..];
      EncodeIsUnpaddedThenPad(alphabet, rest);
      EncodeUnfold(alphabet, data);
      if k < 3 {
        assert rest == [];
      }
    }
  }

  /** `Unpadded` has one character per six bits, rounded up. */
  lemma {:induction false} UnpaddedLength(alphabet: string, data: seq<Byte>)
    requires |alphabet| == 64
    ensures |Unpadded(alphabet, data)| + PadCount(|data|) == 4 * ((|data| + 2) / 3)
    decreases |data|
  {
    PadCountStep(|data|);
    if data != [] {
      var k := GroupSize(|data|);
      UnpaddedLength(alphabet, data[k..]);
      EncodeUnfold(alphabet, data);
      if k < 3 {
        assert data[k..] == [];
      }
    }
  }

  lemma {:induction false} UnpaddedInAlphabet(alphabet: string, data: seq<Byte>)
    requires |alphabet| == 64
    ensures forall i | 0 <= i < |Unpadded(alphabet, data)| :: Unpadded(alphabet, data)[i] in alphabet
    decreases |data|
  {
    if data != [] {
      var k := GroupSize(|data|);
      UnpaddedInAlphabet(alphabet, data[k..]);
      var g := GroupChars(alphabet, data[..k]);
      assert forall i | 0 <= i < |g| :: g[i] in alphabet;
    }
  }

  /**
   * `n` bytes encode to 4 * ceil(n / 3) characters; every character is in
   * the alphabet except the final padding, which is "==" when n mod 3 is 1,
   * "=" when it is 2, and absent when it is 0.
   */
  lemma {:induction false} EncodeShape(alphabet: string, data: seq<Byte>)
    requires |alphabet| == 64
    ensures var s := Encode(alphabet, data);
      && |s| == 4 * ((|data| + 2) / 3)
      && (forall i | 0 <= i < |s| - PadCount(|data|) :: s[i] in alphabet)
      && (forall i | |s| - PadCount(|data|) <= i < |s| :: s[i] == Padding)
      && PadCount(|data|) == (if |data| % 3 == 1 then 2 else if |data| % 3 == 2 then 1 else 0)
  {
    EncodeIsUnpaddedThenPad(alphabet, data);
    UnpaddedLength(alphabet, data);
    UnpaddedInAlphabet(alphabet, data);
  }

  /** Concatenation regroups; stated once so that loops need not prove it element by element. */
  lemma {:induction false} AppendAssoc<T>(a: seq<T>, b: seq<T>, c: seq<T>)
    ensures a + (b + c) == (a + b) + c
  {
  }

  /**
   * `encode` as the source writes it: a loop over the data in steps of three,
   * appending each group's characters. `rest` is the part of the data the loop
   * has not reached yet, so `rest[..k]` is the source's `data[i:i + 3]`.
   */
  method EncodeMethod(alphabet: string, data: seq<Byte>) returns (s: string)
    requires |alphabet| == 64
    ensures s == Encode(alphabet, data)
  {
    s := "";
    var rest := data;
    while rest != []
      invariant Encode(alphabet, data) == s + Encode(alphabet, rest)
      decreases |rest|
    {
      var k := GroupSize(|rest|);
      AppendAssoc(s, EncodeGroup(alphabet, rest[..k]), Encode(alphabet, rest[k..]));
      s := s + EncodeGroup(alphabet, rest[..k]);
      rest := rest[k..];
    }
  }

  // ----------------------------------------------------------------- decode

  const InvalidCharacter: string := "ValueError"
  const ShortGroup: string := "IndexError"

  /** `s.count(c)` */
  function CountChar(s: string, c: char): (n: nat)
    ensures n <= |s|
    ensures n == 0 <==> c !in s
    decreases |s|
  {
    if s == [] then 0 else (if s[0] == c then 1 else 0) + CountChar(s[1..], c)
  }

  /** The text left once as many trailing characters as there are "=" anywhere are cut off. */
  function StripPadding(s: string): string {
    var n := CountChar(s, Padding);
    if n > 0 then s[..|s| - n] else s
  }

  /**
   * One group of up to four characters. The source looks the characters up
   * one by one inside a `try`: a character outside the alphabet raises
   * (reported as ValueError), and a lone final character fails reading the
   * second one (IndexError, which the source does not convert). Since any
   * exception discards the bytes already appended, the verdict depends only
   * on the first character, the group's length and whether every character
   * is valid.
   */
  function DecodeGroup(alphabet: string, c: string): (r: Result<seq<Byte>, string>)
    requires |alphabet| == 64
    requires 1 <= |c| <= 4
    ensures r.Ok? ==> |r.value| == |c| - 1
  {
    if DecodeChar(alphabet, c[0]).None? then Err(InvalidCharacter)
    else if |c| == 1 then Err(ShortGroup)
    else if !AllValid(alphabet, c) then Err(InvalidCharacter)
    else Ok(seq(|c| - 1, j requires 0 <= j < |c| - 1 => GroupByte(alphabet, c, j)))
  }

  /**
   * The j-th byte of a group of valid characters, from the values v and w of
   * characters j and j + 1: `(v << 2) | (w >> 4)`, `((v & 15) << 4) | (w >> 2)`
   * or `((v & 3) << 6) | w`.
   */
  function GroupByte(alphabet: string, c: string, j: nat): Byte
    requires |alphabet| == 64
    requires 2 <= |c| <= 4 && j < |c| - 1 && AllValid(alphabet, c)
  {
    var v := DecodeChar(alphabet, c[j]).value;
    var w := DecodeChar(alphabet, c[j + 1]).value;
    if j == 0 then v * 4 + w / 16
    else if j == 1 then v % 16 * 16 + w / 4
    else v % 4 * 64 + w
  }

  /** How many characters the next group takes: four, or what is left. */
  function ChunkSize(n: nat): nat {
    if n < 4 then n else 4
  }

  function DecodeGroups(alphabet: string, t: string): Result<seq<Byte>, string>
    requires |alphabet| == 64
    decreases |t|
  {
    if t == [] then Ok([])
    else
      var k := ChunkSize(|t|);
      match DecodeGroup(alphabet, t[..k])
      case Err(e) => Err(e)
      case Ok(bytes) => Prepend(bytes, DecodeGroups(alphabet, t[k..]))
  }

  /** The bytes of one group put in front of whatever the rest decodes to; an error passes through. */
  function Prepend(bytes: seq<Byte>, r: Result<seq<Byte>, string>): (p: Result<seq<Byte>, string>)
    ensures p.Ok? <==> r.Ok?
    ensures p.Ok? ==> p.value == bytes + r.value
    ensures p.Err? ==> p.error == r.error
  {
    match r
    case Err(e) => Err(e)
    case Ok(rest) => Ok(bytes + rest)
  }

  lemma {:induction false} PrependNothing(r: Result<seq<Byte>, string>)
    ensures Prepend([], r) == r
  {
    if r.Ok? {
      assert [] + r.value == r.value;
    }
  }

  lemma {:induction false} PrependTwice(a: seq<Byte>, b: seq<Byte>, r: Result<seq<Byte>, string>)
    ensures Prepend(a, Prepend(b, r)) == Prepend(a + b, r)
  {
    if r.Ok? {
      AppendAssoc(a, b, r.value);
    }
  }

  /** `decode` */
  function Decode(alphabet: string, s: string): Result<seq<Byte>, string>
    requires |alphabet| == 64
  {
    DecodeGroups(alphabet, StripPadding(s))
  }

  /** The bit-field arithmetic behind one group: every field fits in six bits and the fields reassemble. */
  lemma {:induction false} FieldArithmetic(b1: Byte, b2: Byte, b3: Byte)
    ensures b1 / 4 < 64 && b1 % 4 * 16 + b2 / 16 < 64 && b2 % 16 * 4 + b3 / 64 < 64 && b3 % 64 < 64
    ensures b1 / 4 * 4 + (b1 % 4 * 16 + b2 / 16) / 16 == b1
    ensures (b1 % 4 * 16 + b2 / 16) % 16 * 16 + (b2 % 16 * 4 + b3 / 64) / 4 == b2
    ensures (b2 % 16 * 4 + b3 / 64) % 4 * 64 + b3 % 64 == b3
  {
  }

  /** Every character of an encoded group decodes to the six-bit field it was drawn from. */
  lemma {:induction false} GroupCharsDecode(alphabet: string, g: seq<Byte>)
    requires ValidAlphabet(alphabet)
    requires 1 <= |g| <= 3
    ensures var c := GroupChars(alphabet, g);
      forall j | 0 <= j < |c| :: DecodeChar(alphabet, c[j]) == Some(Sextet(g, j))
  {
    var c := GroupChars(alphabet, g);
    forall j | 0 <= j < |c|
      ensures DecodeChar(alphabet, c[j]) == Some(Sextet(g, j))
    {
      CharMapsInverse(alphabet, Sextet(g, j), ' ');
    }
  }

  /** Byte j of a decoded group, put together from fields j and j + 1, is byte j of the original. */
  lemma {:induction false} GroupByteOfChars(alphabet: string, g: seq<Byte>, j: nat)
    requires ValidAlphabet(alphabet)
    requires 1 <= |g| <= 3 && j < |g|
    requires var c := GroupChars(alphabet, g);
      forall i | 0 <= i < |c| :: DecodeChar(alphabet, c[i]) == Some(Sextet(g, i))
    requires AllValid(alphabet, GroupChars(alphabet, g))
    ensures GroupByte(alphabet, GroupChars(alphabet, g), j) == g[j]
  {
    var c := GroupChars(alphabet, g);
    var b1 := g[0];
    var b2: Byte := if |g| >= 2 then g[1] else 0;
    var b3: Byte := if |g| == 3 then g[2] else 0;
    FieldArithmetic(b1, b2, b3);
    assert DecodeChar(alphabet, c[j]) == Some(Sextet(g, j));
    assert DecodeChar(alphabet, c[j + 1]) == Some(Sextet(g, j + 1));
  }

  /** The bit fields of one group come back as the bytes they were cut from. */
  lemma {:induction false} DecodeGroupChars(alphabet: string, g: seq<Byte>)
    requires ValidAlphabet(alphabet)
    requires 1 <= |g| <= 3
    ensures DecodeGroup(alphabet, GroupChars(alphabet, g)) == Ok(g)
  {
    var c := GroupChars(alphabet, g);
    GroupCharsDecode(alphabet, g);
    assert AllValid(alphabet, c);
    var r := DecodeGroup(alphabet, c).value;
    forall j | 0 <= j < |g|
      ensures r[j] == g[j]
    {
      GroupByteOfChars(alphabet, g, j);
    }
    assert r == g;
  }

  lemma {:induction false} DecodeUnpadded(alphabet: string, data: seq<Byte>)
    requires ValidAlphabet(alphabet)
    ensures DecodeGroups(alphabet, Unpadded(alphabet, data)) == Ok(data)
    decreases |data|
  {
    if data != [] {
      var k := GroupSize(|data|);
      DecodeUnpadded(alphabet, data[k..]);
      DecodeGroupChars(alphabet, data[..k]);
      DecodeUnpaddedStep(alphabet, data, k);
    }
  }

  /** The first group's characters and the rest's decode to the first group's bytes and the rest's. */
  lemma DecodeUnpaddedStep(alphabet: string, data: seq<Byte>, k: nat)
    requires |alphabet| == 64
    requires 0 < k <= |data| && k == GroupSize(|data|)
    requires DecodeGroup(alphabet, GroupChars(alphabet, data[..k])) == Ok(data[..k])
    requires DecodeGroups(alphabet, Unpadded(alphabet, data[k..])) == Ok(data[k..])
    ensures DecodeGroups(alphabet, Unpadded(alphabet, data)) == Ok(data)
  {
    UnpaddedFirstChunk(alphabet, data, k);
    assert data == data[..k] + data[k..];
    DecodeGroupsSplit(alphabet, Unpadded(alphabet, data), GroupChars(alphabet, data[..k]),
      Unpadded(alphabet, data[k..]), data, data[..k], data[k..]);
  }

  /** The first group's characters are the first chunk the decoder reads. */
  lemma UnpaddedFirstChunk(alphabet: string, data: seq<Byte>, k: nat)
    requires |alphabet| == 64
    requires 0 < k <= |data| && k == GroupSize(|data|)
    ensures var head := GroupChars(alphabet, data[..k]);
      Unpadded(alphabet, data) == head + Unpadded(alphabet, data[k..]) &&
      |head| == ChunkSize(|Unpadded(alphabet, data)|)
  {
    if k < 3 {
      assert data[k..] == [];
    }
  }

  /** A first chunk that decodes, followed by groups that decode, decodes to the two byte strings joined. */
  lemma DecodeGroupsSplit(alphabet: string, t: string, head: string, rest: string, bytes: seq<Byte>, g: seq<Byte>, r: seq<Byte>)
    requires |alphabet| == 64
    requires t == head + rest && bytes == g + r
    requires head != [] && |head| == ChunkSize(|t|)
    requires DecodeGroup(alphabet, head) == Ok(g)
    requires DecodeGroups(alphabet, rest) == Ok(r)
    ensures DecodeGroups(alphabet, t) == Ok(bytes)
  {
    assert t[..|head|] == head && t[|head|..] == rest;
  }

  /** Stripping the encoder's output removes exactly its padding. */
  lemma {:induction false} StripEncoded(alphabet: string, data: seq<Byte>)
    requires ValidAlphabet(alphabet)
    ensures StripPadding(Encode(alphabet, data)) == Unpadded(alphabet, data)
  {
    EncodeIsUnpaddedThenPad(alphabet, data);
    var u := Unpadded(alphabet, data);
    var p := PadCount(|data|);
    UnpaddedInAlphabet(alphabet, data);
    assert Padding !in u;
    CountAppend(u, Pad(p), Padding);
    CountAll(Pad(p), Padding);
    var s := Encode(alphabet, data);
    assert CountChar(s, Padding) == p;
    if p > 0 {
      assert s[..|s| - p] == u;
    }
  }

  /** `decode(encode(b)) == b` for every byte string. */
  lemma {:induction false} RoundTrip(alphabet: string, data: seq<Byte>)
    requires ValidAlphabet(alphabet)
    ensures Decode(alphabet, Encode(alphabet, data)) == Ok(data)
  {
    StripEncoded(alphabet, data);
    DecodeUnpadded(alphabet, data);
  }

  lemma {:induction false} CountAppend(a: string, b: string, c: char)
    ensures CountChar(a + b, c) == CountChar(a, c) + CountChar(b, c)
    decreases |a|
  {
    if a != [] {
      CountAppend(a[1..], b, c);
      var ab := a + b;
      assert ab != [] && ab[0] == a[0] && ab[1..] == a[1..] + b;
      assert CountChar(ab, c) == (if a[0] == c then 1 else 0) + CountChar(a[1..] + b, c);
    } else {
      assert a + b == b;
    }
  }

  lemma {:induction false} CountAll(s: string, c: char)
    requires forall i | 0 <= i < |s| :: s[i] == c
    ensures CountChar(s, c) == |s|
    decreases |s|
  {
    if s != [] {
      CountAll(s[1..], c);
    }
  }

  // ------------------------------------------------------ decode verdicts

  /** Every character is one the decode table knows, that is, one in the alphabet. */
  predicate AllValid(alphabet: string, t: string) {
    forall i | 0 <= i < |t| :: DecodeChar(alphabet, t[i]).Some?
  }

  /** How many bytes `n` unpadded characters carry: three per full group, one less than the tail's length otherwise. */
  function DecodedLength(n: nat): nat {
    n / 4 * 3 + (if n % 4 == 0 then 0 else n % 4 - 1)
  }

  /** A character outside the alphabet anywhere in a group is reported as ValueError, whatever precedes it. */
  lemma {:induction false} InvalidCharFailsGroup(alphabet: string, c: string, i: nat)
    requires |alphabet| == 64
    requires 1 <= |c| <= 4 && i < |c| && DecodeChar(alphabet, c[i]).None?
    ensures DecodeGroup(alphabet, c) == Err(InvalidCharacter)
  {
  }

  /**
   * One group: any character outside the alphabet is a ValueError; a lone
   * valid character is an IndexError; otherwise it decodes.
   */
  lemma {:induction false} DecodeGroupVerdict(alphabet: string, c: string)
    requires |alphabet| == 64
    requires 1 <= |c| <= 4
    ensures !AllValid(alphabet, c) ==> DecodeGroup(alphabet, c) == Err(InvalidCharacter)
    ensures AllValid(alphabet, c) && |c| == 1 ==> DecodeGroup(alphabet, c) == Err(ShortGroup)
    ensures AllValid(alphabet, c) && |c| > 1 ==> DecodeGroup(alphabet, c).Ok?
  {
    if !AllValid(alphabet, c) {
      var i :| 0 <= i < |c| && DecodeChar(alphabet, c[i]).None?;
      InvalidCharFailsGroup(alphabet, c, i);
    }
  }

  /**
   * The text after padding removal decodes exactly when every character is
   * in the alphabet and its length is not one more than a multiple of four;
   * an invalid character wins over a short final group.
   */
  lemma {:induction false} DecodeGroupsVerdict(alphabet: string, t: string)
    requires |alphabet| == 64
    ensures !AllValid(alphabet, t) ==> DecodeGroups(alphabet, t) == Err(InvalidCharacter)
    ensures AllValid(alphabet, t) && |t| % 4 == 1 ==> DecodeGroups(alphabet, t) == Err(ShortGroup)
    ensures AllValid(alphabet, t) && |t| % 4 != 1 ==> DecodeGroups(alphabet, t).Ok? && |DecodeGroups(alphabet, t).value| == DecodedLength(|t|)
    decreases |t|
  {
    DecodedLengthStep(|t|);
    if t != [] {
      var k := ChunkSize(|t|);
      var head, rest := t[..k], t[k..];
      DecodeGroupsUnfold(alphabet, t, head, rest);
      DecodeGroupVerdict(alphabet, head);
      DecodeGroupsVerdict(alphabet, rest);
      assert t == head + rest;
      AllValidAppend(alphabet, head, rest);
      if k < 4 {
        assert rest == [];
      }
    }
  }

  /** The decoded length and the short-group test, one group further on. */
  lemma {:induction false} DecodedLengthStep(n: nat)
    ensures n >= 4 ==> DecodedLength(n) == 3 + DecodedLength(n - 4) && (n % 4 == 1 <==> (n - 4) % 4 == 1)
    ensures 0 < n < 4 ==> DecodedLength(n) == n - 1
  {
  }

  lemma {:induction false} AllValidAppend(alphabet: string, a: string, b: string)
    requires |alphabet| == 64
    ensures AllValid(alphabet, a + b) <==> AllValid(alphabet, a) && AllValid(alphabet, b)
  {
    if AllValid(alphabet, a) && AllValid(alphabet, b) {
      forall i | 0 <= i < |a + b|
        ensures DecodeChar(alphabet, (a + b)[i]).Some?
      {
        if i >= |a| {
          assert (a + b)[i] == b[i - |a|];
        }
      }
    }
    if AllValid(alphabet, a + b) {
      forall i | 0 <= i < |b|
        ensures DecodeChar(alphabet, b[i]).Some?
      {
        assert (a + b)[|a| + i] == b[i];
      }
      forall i | 0 <= i < |a|
        ensures DecodeChar(alphabet, a[i]).Some?
      {
        assert (a + b)[i] == a[i];
      }
    }
  }

  /** The whole decoder's verdict, in terms of the text left after the padding is cut. */
  lemma {:induction false} DecodeVerdict(alphabet: string, s: string)
    requires |alphabet| == 64
    ensures var t := StripPadding(s);
      && (!AllValid(alphabet, t) ==> Decode(alphabet, s) == Err(InvalidCharacter))
      && (AllValid(alphabet, t) && |t| % 4 == 1 ==> Decode(alphabet, s) == Err(ShortGroup))
      && (AllValid(alphabet, t) && |t| % 4 != 1 ==> Decode(alphabet, s).Ok? && |Decode(alphabet, s).value| == DecodedLength(|t|))
  {
    DecodeGroupsVerdict(alphabet, StripPadding(s));
  }

  /** Decoding a non-empty text: the first group, then the rest. */
  lemma DecodeGroupsUnfold(alphabet: string, t: string, head: string, rest: string)
    requires |alphabet| == 64
    requires t != [] && head == t[..ChunkSize(|t|)] && rest == t[ChunkSize(|t|)..]
    ensures DecodeGroup(alphabet, head).Err? ==> DecodeGroups(alphabet, t) == Err(DecodeGroup(alphabet, head).error)
    ensures DecodeGroup(alphabet, head).Ok? ==>
      DecodeGroups(alphabet, t) == Prepend(DecodeGroup(alphabet, head).value, DecodeGroups(alphabet, rest))
  {
  }

  /**
   * `decode` as the source writes it: count the padding, cut it off, then walk
   * the text four characters at a time, appending each group's bytes; the first
   * failing group ends the call. `rest` is the text the loop has not reached yet.
   */
  method DecodeMethod(alphabet: string, s: string) returns (r: Result<seq<Byte>, string>)
    requires |alphabet| == 64
    ensures r == Decode(alphabet, s)
  {
    var n := CountChar(s, Padding);
    var rest := s;
    if n > 0 {
      rest := s[..|s| - n];
    }
    assert rest == StripPadding(s);
    PrependNothing(DecodeGroups(alphabet, rest));
    var out: seq<Byte> := [];
    while rest != []
      invariant Decode(alphabet, s) == Prepend(out, DecodeGroups(alphabet, rest))
      decreases |rest|
    {
      var k := ChunkSize(|rest|);
      var g := DecodeGroup(alphabet, rest[..k]);
      if g.Err? {
        return Err(g.error);
      }
      PrependTwice(out, g.value, DecodeGroups(alphabet, rest[k..]));
      out := out + g.value;
      rest := rest[k..];
    }
    assert out + [] == out;
    r := Ok(out);
  }

  /** `CBase64.decode(CBase64.encode(b)) == b` with the class's own table. */
  lemma {:induction false} TableRoundTrip(data: seq<Byte>)
    ensures Decode(Alphabet, Encode(Alphabet, data)) == Ok(data)
  {
    AlphabetDistinct();
    RoundTrip(Alphabet, data);
  }
}
