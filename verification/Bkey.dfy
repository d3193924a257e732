/**
 Keys, positions and per-node key formats, and the meaning of a packed key.

 A packed key of n little-endian words is read as one number
 Value(words) = sum of words[i] * 2^(64 i). The six fields fill it from the high
 end down; the low 24 bits are the header (size, format, whiteout flag, type).
 */
module Bkey {
  import opened Bits

  type u8 = x: int | 0 <= x < 256

  const BKEY_U64S: nat := 5
  const NR_FIELDS: nat := 6
  const KEY_PACKED_BITS_START: nat := 24
  const KEY_FORMAT_LOCAL_BTREE: nat := 0
  const KEY_FORMAT_CURRENT: nat := 1
  const KEY_OFFSET_MAX: u64 := W64 - 1
  const KEY_SNAPSHOT_MAX: u32 := W32 - 1

  const INODE: nat := 0
  const OFFSET: nat := 1
  const SNAPSHOT: nat := 2
  const SIZE: nat := 3

  datatype Bpos = Bpos(inode: u64, offset: u64, snapshot: u32)

  /** The in-memory key: u64s counts key and value words. */
  datatype Key = Key(p: Bpos, size: u32, versionHi: u32, versionLo: u64,
                     u64s: u8, needsWhiteout: bool, keyType: u8)

  datatype Format = Format(keyU64s: nat, nrFields: nat, bits: seq<nat>, offsets: seq<u64>)
  {
    /** bits_per_field and field_offset are six-element arrays. */
    predicate Shape() { |bits| == NR_FIELDS && |offsets| == NR_FIELDS }
  }

  const UNPACKED_BITS: seq<nat> := [64, 64, 32, 32, 32, 64]

  const FORMAT_CURRENT: Format := Format(BKEY_U64S, NR_FIELDS, UNPACKED_BITS, [0, 0, 0, 0, 0, 0])

  function Fields(k: Key): (r: seq<u64>)
    ensures |r| == NR_FIELDS
  {
    [k.p.inode, k.p.offset, k.p.snapshot, k.size, k.versionHi, k.versionLo]
  }

  function PosFields(p: Bpos): (r: seq<u64>)
    ensures |r| == 3
  {
    [p.inode, p.offset, p.snapshot]
  }

  // ---- positions ----

  predicate BposLt(l: Bpos, r: Bpos)
  {
    if l.inode != r.inode then l.inode < r.inode
    else if l.offset != r.offset then l.offset < r.offset
    else l.snapshot < r.snapshot
  }

  predicate BposLe(l: Bpos, r: Bpos) { l == r || BposLt(l, r) }

  function BposCmp(l: Bpos, r: Bpos): int
  {
    if l.inode != r.inode then CmpInt(l.inode, r.inode)
    else if l.offset != r.offset then CmpInt(l.offset, r.offset)
    else CmpInt(l.snapshot, r.snapshot)
  }

  // ---- formats ----

  /** Bits used by the first i fields. */
  function Total(bits: seq<nat>, i: nat): (r: nat)
    requires i <= |bits|
  {
    if i == 0 then 0 else Total(bits, i - 1) + bits[i - 1]
  }

  function DivRoundUp(x: nat, d: nat): nat
    requires d > 0
  {
    (x + d - 1) / d
  }

  /** bkey_format_key_bits: the bits that hold the position. */
  function KeyBits(f: Format): nat
    requires f.Shape()
  {
    Total(f.bits, 3)
  }

  /** Field i of f never decodes to more than the unpacked field can hold. */
  ghost predicate FieldValid(f: Format, i: nat)
    requires f.Shape() && i < NR_FIELDS
  {
    f.offsets[i] + Pow2(f.bits[i]) - 1 < Pow2(UNPACKED_BITS[i])
  }

  ghost predicate Valid(f: Format)
  {
    && f.Shape()
    && f.nrFields == NR_FIELDS
    && (forall i :: 0 <= i < NR_FIELDS ==> FieldValid(f, i))
    && f.keyU64s == DivRoundUp(KEY_PACKED_BITS_START + Total(f.bits, NR_FIELDS), 64)
  }

  // ---- packed keys as numbers ----

  /** The number held by little-endian words. */
  function Value(words: seq<u64>): nat
  {
    if |words| == 0 then 0 else words[0] + Lsh(Value(words[1..]), 64)
  }

  /** The first i values written one after the other, bits[j] bits each. */
  ghost function Stream(bits: seq<nat>, vals: seq<nat>, i: nat): nat
    requires i <= |bits| && i <= |vals|
  {
    if i == 0 then 0 else Lsh(Stream(bits, vals, i - 1), bits[i - 1]) + vals[i - 1]
  }

  /** Bits below the fields in a key of format f. */
  function LowBits(f: Format): int
    requires f.Shape()
  {
    64 * f.keyU64s - Total(f.bits, NR_FIELDS)
  }

  function HeaderValue(u64s: u8, format: nat, needsWhiteout: bool, keyType: u8): nat
  {
    u64s + 0x100 * format + (if needsWhiteout then 0x8000 else 0) + 0x1_0000 * keyType
  }

  /** Field i as stored: the bits found at its place in v. */
  ghost function RawField(f: Format, v: nat, i: nat): nat
    requires f.Shape() && i < NR_FIELDS && 64 * f.keyU64s >= Total(f.bits, i + 1)
  {
    Low(Shr(v, 64 * f.keyU64s - Total(f.bits, i + 1)), f.bits[i])
  }

  // ---- arithmetic of words and streams ----

  lemma {:induction false} ValueBound(words: seq<u64>)
    ensures Value(words) < Pow2(64 * |words|)
  {
    if |words| > 0 {
      ValueBound(words[1..]);
      var h := Value(words[1..]);
      LshGap(h, Pow2(64 * (|words| - 1)), 64);
      LshLsh(1, 64 * (|words| - 1), 64);
      Pow2Values();
    }
  }

  /** Dropping the low p words is a shift; keeping them is a truncation. */
  lemma {:induction false} ValueDrop(words: seq<u64>, p: nat)
    requires p <= |words|
    ensures Shr(Value(words), 64 * p) == Value(words[p..])
  {
    if p == 0 {
      assert words[0..] == words;
    } else {
      ValueDrop(words[1..], p - 1);
      assert words[p..] == words[1..][p - 1..];
      Pow2Values();
      Join(Value(words[1..]), words[0], 64);
      ShrShr(Value(words), 64, 64 * (p - 1));
    }
  }

  lemma {:induction false} ValueSplit(words: seq<u64>, p: nat)
    requires p <= |words|
    ensures Value(words) == Value(words[..p]) + Lsh(Value(words[p..]), 64 * p)
  {
    if p == 0 {
      assert words[0..] == words;
    } else {
      ValueSplit(words[1..], p - 1);
      assert words[..p][1..] == words[1..][..p - 1];
      assert words[p..] == words[1..][p - 1..];
      LshAdd(Value(words[1..][..p - 1]), Lsh(Value(words[p..]), 64 * (p - 1)), 64);
      LshLsh(Value(words[p..]), 64 * (p - 1), 64);
    }
  }

  lemma {:induction false} TotalMonotone(bits: seq<nat>, i: nat, j: nat)
    requires i <= j <= |bits|
    ensures Total(bits, i) <= Total(bits, j)
  {
    if i < j { TotalMonotone(bits, i, j - 1); }
  }

  lemma {:induction false} StreamBound(bits: seq<nat>, vals: seq<nat>, i: nat)
    requires i <= |bits| && i <= |vals|
    requires forall j :: 0 <= j < i ==> vals[j] < Pow2(bits[j])
    ensures Stream(bits, vals, i) < Pow2(Total(bits, i))
  {
    if i > 0 {
      StreamBound(bits, vals, i - 1);
      LshGap(Stream(bits, vals, i - 1), Pow2(Total(bits, i - 1)), bits[i - 1]);
      LshLsh(1, Total(bits, i - 1), bits[i - 1]);
    }
  }

  /** Shifting the stream of i fields down to j fields drops the last i - j. */
  lemma {:induction false} StreamPrefix(bits: seq<nat>, vals: seq<nat>, i: nat, j: nat)
    requires j <= i <= |bits| && i <= |vals|
    requires forall k :: 0 <= k < i ==> vals[k] < Pow2(bits[k])
    ensures Total(bits, j) <= Total(bits, i)
    ensures Shr(Stream(bits, vals, i), Total(bits, i) - Total(bits, j)) == Stream(bits, vals, j)
    decreases i - j
  {
    TotalMonotone(bits, j, i);
    if j < i {
      StreamPrefix(bits, vals, i, j + 1);
      TotalMonotone(bits, j + 1, i);
      ShrShr(Stream(bits, vals, i), Total(bits, i) - Total(bits, j + 1), bits[j]);
      Join(Stream(bits, vals, j), vals[j], bits[j]);
    }
  }

  /** A number made of a stream of i fields above s low bits decodes to those fields. */
  lemma {:induction false} StreamDecode(bits: seq<nat>, vals: seq<nat>, i: nat, j: nat, low: nat, s: nat)
    requires j < i <= |bits| && i <= |vals|
    requires forall k :: 0 <= k < i ==> vals[k] < Pow2(bits[k])
    requires low < Pow2(s)
    ensures Total(bits, j + 1) <= Total(bits, i)
    ensures Low(Shr(Lsh(Stream(bits, vals, i), s) + low, s + Total(bits, i) - Total(bits, j + 1)), bits[j])
            == vals[j]
  {
    var st := Stream(bits, vals, i);
    StreamPrefix(bits, vals, i, j + 1);
    ShrShr(Lsh(st, s) + low, s, Total(bits, i) - Total(bits, j + 1));
    Join(st, low, s);
    Join(Stream(bits, vals, j), vals[j], bits[j]);
  }

  lemma {:induction false} TotalSix(bits: seq<nat>)
    requires |bits| == NR_FIELDS
    ensures Total(bits, 3) == bits[0] + bits[1] + bits[2]
    ensures Total(bits, NR_FIELDS) == bits[0] + bits[1] + bits[2] + bits[3] + bits[4] + bits[5]
  {
    assert Total(bits, 1) == bits[0];
    assert Total(bits, 2) == bits[0] + bits[1];
    assert Total(bits, 4) == Total(bits, 3) + bits[3];
    assert Total(bits, 5) == Total(bits, 4) + bits[4];
  }

  /** In a valid format the fields leave room for the header, and less than a word more. */
  lemma {:induction false} LowBitsRange(f: Format)
    requires Valid(f)
    ensures KEY_PACKED_BITS_START <= LowBits(f) < KEY_PACKED_BITS_START + 64
    ensures 1 <= f.keyU64s <= BKEY_U64S
    ensures forall i :: 0 <= i < NR_FIELDS ==> f.bits[i] <= UNPACKED_BITS[i]
    ensures forall i :: 0 <= i <= NR_FIELDS ==> 0 <= Total(f.bits, i) <= Total(f.bits, NR_FIELDS)
  {
    forall i | 0 <= i < NR_FIELDS
      ensures f.bits[i] <= UNPACKED_BITS[i]
    {
      assert FieldValid(f, i);
      if f.bits[i] > UNPACKED_BITS[i] { Pow2Monotone(UNPACKED_BITS[i], f.bits[i]); }
    }
    TotalSix(f.bits);
    forall i | 0 <= i <= NR_FIELDS
      ensures 0 <= Total(f.bits, i) <= Total(f.bits, NR_FIELDS)
    {
      TotalMonotone(f.bits, i, NR_FIELDS);
    }
  }

  // ---- validity of formats ----

  /** bch2_bkey_format_field_overflows. */
  predicate FieldOverflows(f: Format, i: nat)
    requires f.Shape() && i < NR_FIELDS
  {
    var fBits, unpackedBits := f.bits[i], UNPACKED_BITS[i];
    || fBits > unpackedBits
    || (fBits == unpackedBits && f.offsets[i] != 0)
    || Low(Word(f.offsets[i] + (Pow2(fBits) - 1)), unpackedBits) < f.offsets[i]
  }

  /** The masked comparison is exactly "some stored value would not fit". */
  lemma {:induction false} FieldOverflowsExact(f: Format, i: nat)
    requires f.Shape() && i < NR_FIELDS
    ensures FieldOverflows(f, i) <==> !FieldValid(f, i)
  {
    var b, u, off := f.bits[i], UNPACKED_BITS[i], f.offsets[i];
    if b > u {
      Pow2Monotone(u, b);
    } else {
      Pow2Monotone(b, u);
      MaskedSum(off, Pow2(b) - 1, u);
    }
  }

  lemma {:induction false} MaskedSum(off: nat, mask: nat, u: nat)
    requires u <= 64 && mask < Pow2(u)
    ensures Low(Word(off + mask), u) < off <==> off + mask >= Pow2(u)
  {
    var x := off + mask;
    WordIsLow(x);
    LowLow(x, 64, u);
    if x < Pow2(u) {
      LowSmall(x, u);
    } else if off < Pow2(u) {
      LowAddMultiple(1, x - Pow2(u), u);
      LowSmall(x - Pow2(u), u);
    } else {
      Split(x, u);
    }
  }

  /** bch2_bkey_format_invalid. */
  method FormatInvalid(f: Format) returns (bad: bool)
    requires f.Shape()
    ensures bad <==> !Valid(f)
  {
    var bits := KEY_PACKED_BITS_START;
    if f.nrFields != NR_FIELDS { return true; }
    var i := 0;
    while i < f.nrFields
      invariant 0 <= i <= NR_FIELDS
      invariant bits == KEY_PACKED_BITS_START + Total(f.bits, i)
      invariant forall j :: 0 <= j < i ==> FieldValid(f, j)
    {
      FieldOverflowsExact(f, i);
      if FieldOverflows(f, i) { return true; }
      bits := bits + f.bits[i];
      i := i + 1;
    }
    return f.keyU64s != DivRoundUp(bits, 64);
  }
}
