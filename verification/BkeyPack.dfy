/**
 The bit packer and unpacker of libbcachefs/bkey.c, word by word, proved against
 the numeric meaning of a packed key.
 */
module BkeyPack {
  import opened Bits
  import opened Bkey

  // ---- specification: what a packed key means ----

  /** Every field of k is representable in f. */
  ghost predicate FieldFits(f: Format, vals: seq<u64>, i: nat)
    requires f.Shape() && i < |vals| <= NR_FIELDS
  {
    f.offsets[i] <= vals[i] < f.offsets[i] + Pow2(f.bits[i])
  }

  ghost predicate Fits(f: Format, k: Key)
    requires f.Shape()
  {
    forall i :: 0 <= i < NR_FIELDS ==> FieldFits(f, Fields(k), i)
  }

  /** What is stored for a field: its distance from the field's offset. */
  ghost function Stored(f: Format, vals: seq<u64>): (r: seq<nat>)
    requires f.Shape() && |vals| <= NR_FIELDS
    ensures |r| == |vals|
    ensures forall i :: 0 <= i < |vals| && vals[i] >= f.offsets[i] ==> r[i] + f.offsets[i] == vals[i]
  {
    seq(|vals|, i requires 0 <= i < |vals| => Distance(vals[i], f.offsets[i]))
  }

  function Distance(v: nat, offset: nat): nat
  {
    if offset <= v then v - offset else 0
  }

  /** The packed key as a number: fields, then zero padding, then the header. */
  ghost function Encode(f: Format, k: Key): nat
    requires Valid(f) && Fits(f, k)
  {
    LowBitsRange(f);
    Lsh(Stream(f.bits, Stored(f, Fields(k)), NR_FIELDS), LowBits(f))
      + HeaderValue((f.keyU64s + k.u64s - BKEY_U64S) % 256, KEY_FORMAT_LOCAL_BTREE, k.needsWhiteout, k.keyType)
  }

  ghost function DecodeField(f: Format, v: nat, i: nat): nat
    requires Valid(f) && i < NR_FIELDS
  {
    LowBitsRange(f);
    RawField(f, v, i) + f.offsets[i]
  }

  lemma DecodeFieldRange(f: Format, v: nat, i: nat)
    requires Valid(f) && i < NR_FIELDS
    ensures DecodeField(f, v, i) < Pow2(UNPACKED_BITS[i]) <= W64
    ensures UNPACKED_BITS[i] == 32 ==> DecodeField(f, v, i) < W32
  {
    assert FieldValid(f, i);
    LowBitsRange(f);
    Split(Shr(v, 64 * f.keyU64s - Total(f.bits, i + 1)), f.bits[i]);
    Pow2Values();
    Pow2Monotone(UNPACKED_BITS[i], 64);
  }

  ghost function DecodePos(f: Format, v: nat): Bpos
    requires Valid(f)
  {
    DecodeFieldRange(f, v, 0);
    DecodeFieldRange(f, v, 1);
    DecodeFieldRange(f, v, 2);
    Bpos(DecodeField(f, v, 0), DecodeField(f, v, 1), DecodeField(f, v, 2))
  }

  ghost function Decode(f: Format, v: nat): Key
    requires Valid(f)
  {
    DecodeFieldRange(f, v, 3);
    DecodeFieldRange(f, v, 4);
    DecodeFieldRange(f, v, 5);
    Key(DecodePos(f, v), DecodeField(f, v, 3), DecodeField(f, v, 4), DecodeField(f, v, 5),
        (BKEY_U64S + HeaderU64s(v) - f.keyU64s) % 256, HeaderNeedsWhiteout(v), HeaderType(v))
  }

  /** The header: byte 0 is u64s, byte 1 format and whiteout flag, byte 2 the type. */
  function HeaderU64s(v: nat): u8 { (v % 0x100_0000) % 256 }

  predicate HeaderNeedsWhiteout(v: nat) { (v % 0x100_0000) / 0x8000 % 2 == 1 }

  function HeaderType(v: nat): u8 { (v % 0x100_0000) / 0x1_0000 }

  // ---- unpacking ----

  /** struct unpack_state: the unread bits of word p, shifted to the top of w. */
  class UnpackState {
    const f: Format
    const words: seq<u64>
    var bits: nat
    var w: u64
    var p: nat

    /** c bits have been read so far. */
    ghost predicate At(c: nat)
      reads this
    {
      && |words| == f.keyU64s
      && p < |words|
      && 1 <= bits <= 64
      && c + 64 * p + bits == 64 * |words|
      && w == Lsh(Low(words[p], bits), 64 - bits)
    }

    constructor (f: Format, words: seq<u64>)
      requires 1 <= f.keyU64s == |words|
      ensures this.f == f && this.words == words
      ensures At(0)
    {
      this.f := f;
      this.words := words;
      bits := 64;
      w := words[f.keyU64s - 1];
      p := f.keyU64s - 1;
      new;
      Pow2Values();
      LowSmall(w, 64);
    }

    /** get_inc_field: the next field, as a 64-bit sum with its offset. */
    method GetIncField(ghost c: nat, field: nat) returns (r: u64)
      requires f.Shape() && field < NR_FIELDS && f.bits[field] <= 64
      requires At(c)
      requires c + f.bits[field] + KEY_PACKED_BITS_START <= 64 * |words|
      modifies this
      ensures At(c + f.bits[field])
      ensures r == Word(Low(Shr(Value(words), 64 * |words| - c - f.bits[field]), f.bits[field])
                        + f.offsets[field])
    {
      hide Lsh, Shr, Low, Or, Value;
      var b := f.bits[field];
      var v: nat := 0;
      ghost var p0, bits0 := p, bits;
      if b >= bits {
        v := Shr(w, 64 - b);
        b := b - bits;
        p := p - 1;
        w := words[p];
        bits := 64;
        UnpackCarry(Low(words[p0], bits0), bits0, b);
        LowWord(words[p]);
        ShiftByZero(words[p]);
      }
      ghost var left, carry := bits, v;
      UnpackStep(words[p], left, b);
      v := Or(v, Shr(Shr(w, 1), 63 - b));
      w := Shl(w, b);
      bits := bits - b;
      if f.bits[field] >= bits0 {
        OrDisjoint(carry, Shr(Low(words[p], left), left - b), b);
        ReadSplit(words, p0, bits0, b);
      } else {
        OrZero(Shr(Low(words[p], left), left - b));
        ReadInside(words, p, left, b);
      }
      r := Word(v + f.offsets[field]);
    }
  }

  lemma OrZero(y: nat)
    ensures Or(0, y) == y
  {
  }

  lemma {:induction false} LowWord(x: u64)
    ensures Low(x, 64) == x
  {
    Pow2Values();
    LowSmall(x, 64);
  }

  /** The unread bits of the old word become the high bits of the field. */
  lemma {:induction false} UnpackCarry(x: nat, bits: nat, rest: nat)
    requires 1 <= bits && bits + rest <= 64
    ensures Shr(Lsh(x, 64 - bits), 64 - bits - rest) == Lsh(x, rest)
    ensures Low(Lsh(x, rest), rest) == 0
  {
    ShrLsh(x, 64 - bits, 64 - bits - rest);
    ShrLsh(x, rest, rest);
  }

  /** Reading b bits off the top of w, and shifting them out. */
  lemma {:induction false} UnpackStep(word: nat, bits: nat, b: nat)
    requires 1 <= bits <= 64 && b <= bits && b <= 63
    ensures Shr(Shr(Lsh(Low(word, bits), 64 - bits), 1), 63 - b) == Shr(Low(word, bits), bits - b)
    ensures Shr(Low(word, bits), bits - b) < Pow2(b)
    ensures Shl(Lsh(Low(word, bits), 64 - bits), b) == Lsh(Low(word, bits - b), 64 - (bits - b))
  {
    hide Lsh, Shr, Low;
    var x := Low(word, bits);
    var w := Lsh(x, 64 - bits);
    ShiftByZero(x);
    ShrShr(w, 1, 63 - b);
    ShrShr(w, 64 - bits, bits - b);
    ShrLsh(x, 64 - bits, 64 - bits);
    TopBits(word, bits, b);
    LshLsh(x, 64 - bits, b);
    WordIsLow(Lsh(w, b));
    LowJoin(x, 0, 64 - bits + b, bits - b);
    LowLow(word, bits, bits - b);
  }

  lemma {:induction false} TopBits(word: nat, bits: nat, b: nat)
    requires b <= bits
    ensures Shr(Low(word, bits), bits - b) < Pow2(b)
  {
    hide Lsh, Shr, Low;
    Split(word, bits);
    LshLsh(1, b, bits - b);
    ShrLt(Low(word, bits), Pow2(b), bits - b);
  }

  /** The low bits of a run of words are those of its first word. */
  lemma {:induction false} LowOfRun(words: seq<u64>, p: nat, bits: nat)
    requires p < |words| && bits <= 64
    ensures Low(Value(words[p..]), bits) == Low(words[p], bits)
  {
    hide Lsh, Shr, Low;
    var y := Value(words[p..]);
    assert words[p..][1..] == words[p + 1..];
    Pow2Values();
    Join(Value(words[p + 1..]), words[p], 64);
    LowLow(y, 64, bits);
  }

  /** A field inside one word. */
  lemma {:induction false} ReadInside(words: seq<u64>, p: nat, bits: nat, b: nat)
    requires p < |words| && b <= bits <= 64
    ensures Low(Shr(Value(words), 64 * p + bits - b), b) == Shr(Low(words[p], bits), bits - b)
  {
    hide Lsh, Shr, Low, Value;
    ShrShr(Value(words), 64 * p, bits - b);
    ValueDrop(words, p);
    MiddleBits(Value(words[p..]), bits - b, b);
    LowOfRun(words, p, bits);
  }

  /** A field that takes the last bits0 bits of word p and b bits of word p-1. */
  lemma {:induction false} ReadSplit(words: seq<u64>, p: nat, bits0: nat, b: nat)
    requires 1 <= p < |words| && 1 <= bits0 <= 64 && b <= 63
    ensures Low(Shr(Value(words), 64 * p - b), bits0 + b)
            == Lsh(Low(words[p], bits0), b) + Shr(words[p - 1], 64 - b)
  {
    hide Lsh, Shr, Low;
    var z, x := Value(words[p..]), words[p - 1];
    ShrShr(Value(words), 64 * (p - 1), 64 - b);
    ValueDrop(words, p - 1);
    assert words[p - 1..][1..] == words[p..];
    LshLsh(z, b, 64 - b);
    LowAddMultiple(Lsh(z, b), x, 64 - b);
    LowWord(x);
    TopBits(x, 64, b);
    LowJoin(z, Shr(x, 64 - b), b, bits0);
    LowOfRun(words, p, bits0);
  }

  lemma DecodeFieldNoWrap(f: Format, v: nat, i: nat)
    requires Valid(f) && i < NR_FIELDS
    ensures Word(DecodeField(f, v, i)) == DecodeField(f, v, i)
  {
    DecodeFieldRange(f, v, i);
  }

  /** The header of a key is in its low word. */
  lemma {:induction false} HeaderOfValue(words: seq<u64>)
    requires |words| > 0
    ensures Value(words) % 0x100_0000 == words[0] % 0x100_0000
  {
    Lsh64(Value(words[1..]));
  }

  // ---- packing ----

  /** struct pack_state: w holds the bits of word p written so far. */
  class PackState {
    const f: Format
    const out: array<u64>
    var bits: nat
    var w: u64
    var p: nat

    /** c bits have been written, and read as a number they are acc. */
    ghost predicate At(c: nat, acc: nat)
      reads this, out
    {
      && p < f.keyU64s <= out.Length
      && bits <= 64
      && c + 64 * p + bits == 64 * f.keyU64s
      && Lsh(Value(out[p + 1..f.keyU64s]), 64) + w == Lsh(acc, bits)
    }

    constructor (f: Format, out: array<u64>)
      requires 1 <= f.keyU64s <= out.Length
      ensures this.f == f && this.out == out && p == f.keyU64s - 1
      ensures At(0, 0)
    {
      this.f := f;
      this.out := out;
      bits := 64;
      w := 0;
      p := f.keyU64s - 1;
      new;
      LshZero(64);
    }

    /** __set_inc_field: appends v in the field's width. */
    method SetField(ghost c: nat, ghost acc: nat, field: nat, v: u64)
      requires f.Shape() && field < NR_FIELDS && f.bits[field] <= 64
      requires At(c, acc) && v < Pow2(f.bits[field])
      requires c + f.bits[field] <= 64 * f.keyU64s
      modifies this, out
      ensures At(c + f.bits[field], Lsh(acc, f.bits[field]) + v)
      ensures p <= old(p)
      ensures forall i :: 0 <= i < out.Length && (i < p || i > old(p)) ==> out[i] == old(out[i])
    {
      hide Lsh, Shr, Low, Or, Value, Pow2;
      var b := f.bits[field];
      if b != 0 {
        if b > bits {
          b := b - bits;
          PackCarry(acc, Value(out[p + 1..f.keyU64s]), w, bits, v, b);
          w := Or(w, Shr(Shr(v, 1), b - 1));
          Spill();
          OrZero(Shl(v, bits - b));
        } else {
          PackInside(acc, Value(out[p + 1..f.keyU64s]), w, bits, v, b);
        }
        bits := bits - b;
        w := Or(w, Shl(v, bits));
      } else {
        ShiftByZero(acc);
        NoBits(v);
      }
    }

    /** Stores the finished word and starts the next one down. */
    method Spill()
      requires 0 < p < f.keyU64s <= out.Length
      modifies this, out
      ensures p == old(p) - 1 && w == 0 && bits == 64
      ensures Value(out[p + 1..f.keyU64s]) == old(w) + Lsh(Value(old(out[p + 1..f.keyU64s])), 64)
      ensures forall i :: 0 <= i < out.Length && i != old(p) ==> out[i] == old(out[i])
    {
      hide Lsh, Value;
      out[p] := w;
      assert out[p..f.keyU64s][1..] == out[p + 1..f.keyU64s] == old(out[p + 1..f.keyU64s]);
      ValueCons(out[p..f.keyU64s]);
      p := p - 1;
      w := 0;
      bits := 64;
    }

    /** set_inc_field: fails exactly when the field cannot represent v. */
    method SetIncField(ghost c: nat, ghost acc: nat, field: nat, v: u64) returns (ok: bool)
      requires f.Shape() && field < NR_FIELDS && f.bits[field] <= 64
      requires At(c, acc)
      requires c + f.bits[field] <= 64 * f.keyU64s
      modifies this, out
      ensures ok <==> f.offsets[field] <= v < f.offsets[field] + Pow2(f.bits[field])
      ensures ok ==> At(c + f.bits[field], Lsh(acc, f.bits[field]) + Distance(v, f.offsets[field]))
      ensures p <= old(p)
      ensures forall i :: 0 <= i < out.Length && (i < p || i > old(p)) ==> out[i] == old(out[i])
    {
      hide Lsh, Value, Fls;
      var offset := f.offsets[field];
      if v < offset { return false; }
      var d := v - offset;
      FlsBound(d, f.bits[field]);
      if Fls(d) > f.bits[field] { return false; }
      SetField(c, acc, field, d);
      return true;
    }

    /** pack_state_finish. */
    method Finish(ghost c: nat, ghost acc: nat)
      requires At(c, acc)
      modifies out
      ensures out[p] == w
      ensures Value(out[p..f.keyU64s]) == Lsh(acc, bits)
      ensures forall i :: 0 <= i < out.Length && i != p ==> out[i] == old(out[i])
    {
      out[p] := w;
      assert out[p..f.keyU64s][1..] == out[p + 1..f.keyU64s] == old(out[p + 1..f.keyU64s]);
    }

    /** Finishes the key: last word, zero padding below it, header. */
    method FinishKey(ghost c: nat, ghost acc: nat, header: nat)
      requires At(c, acc)
      requires KEY_PACKED_BITS_START <= 64 * p + bits < KEY_PACKED_BITS_START + 64
      requires p > 0 ==> out[0] == 0
      requires header < 0x100_0000
      modifies out
      ensures Value(out[..f.keyU64s]) == Lsh(acc, 64 * f.keyU64s - c) + header
      ensures forall i :: f.keyU64s <= i < out.Length ==> out[i] == old(out[i])
    {
      hide Lsh, Shr, Low, Value, Pow2, WithHeader;
      Finish(c, acc);
      assert 64 * p + bits == 64 * f.keyU64s - c;
      ghost var before := out[..f.keyU64s];
      assert before[p..] == out[p..f.keyU64s];
      FinishedValue(before, p, bits, acc);
      HeaderAdded(before, header);
      out[0] := WithHeader(out[0], header);
      assert out[..f.keyU64s] == before[0 := WithHeader(before[0], header)];
    }
  }

  // ---- whole keys ----

  /** Overwrites the three header bytes of a word. */
  function WithHeader(w: u64, header: nat): u64
    requires header < 0x100_0000
  {
    w - w % 0x100_0000 + header
  }

  /** The stream written for the first i values. */
  ghost function Written(f: Format, vals: seq<u64>, i: nat): nat
    requires f.Shape() && |vals| == NR_FIELDS && i <= NR_FIELDS
  {
    Stream(f.bits, Stored(f, vals), i)
  }

  lemma {:induction false} FinishedValue(words: seq<u64>, p: nat, bits: nat, acc: nat)
    requires p < |words| && p <= 1 && KEY_PACKED_BITS_START <= 64 * p + bits
    requires Value(words[p..]) == Lsh(acc, bits)
    requires p == 1 ==> words[0] == 0
    ensures Value(words) == Lsh(acc, 64 * p + bits) && words[0] % 0x100_0000 == 0
  {
    hide Lsh, Value;
    if p == 0 {
      assert words[0..] == words;
      ShiftedHeader(acc, bits, words);
    } else {
      ValueCons(words);
      LshLsh(acc, bits, 64);
    }
  }

  lemma {:induction false} HeaderAdded(words: seq<u64>, header: nat)
    requires |words| > 0 && words[0] % 0x100_0000 == 0 && header < 0x100_0000
    ensures Value(words[0 := WithHeader(words[0], header)]) == Value(words) + header
  {
    hide Lsh, Value;
    var after := words[0 := WithHeader(words[0], header)];
    assert after[1..] == words[1..];
    ValueCons(words);
    ValueCons(after);
  }

  /** A value shifted past the header leaves the header bits of the low word zero. */
  lemma {:induction false} ShiftedHeader(acc: nat, s: nat, words: seq<u64>)
    requires |words| > 0 && s >= KEY_PACKED_BITS_START && Value(words) == Lsh(acc, s)
    ensures words[0] % 0x100_0000 == 0
  {
    hide Lsh;
    HeaderOfValue(words);
    LshLsh(acc, s - 24, 24);
    Lsh24(Lsh(acc, s - 24));
  }

  lemma {:induction false} Lsh24(x: nat)
    ensures Lsh(x, 24) == 0x100_0000 * x
  {
    hide Lsh;
    LshConst(x);
    LshConst(256 * x);
    LshConst(0x1_0000 * x);
    LshLsh(x, 8, 8);
    LshLsh(x, 16, 8);
  }

  lemma {:induction false} HeaderBound(u64s: u8, needsWhiteout: bool, keyType: u8)
    ensures HeaderValue(u64s, KEY_FORMAT_LOCAL_BTREE, needsWhiteout, keyType) < 0x100_0000
  {
  }

  /** Packing has reached field i of vals. */
  ghost predicate Progress(state: PackState, f: Format, out: array<u64>, vals: seq<u64>, i: nat)
    requires f.Shape() && |vals| == NR_FIELDS && i <= NR_FIELDS
    reads state, out
  {
    && state.f == f && state.out == out
    && state.At(Total(f.bits, i), Written(f, vals, i))
    && (state.p > 0 ==> 0 < out.Length && out[0] == 0)
  }

  /** Packs one field. */
  method PackOne(state: PackState, f: Format, out: array<u64>, ghost vals: seq<u64>, i: nat, v: u64)
    returns (ok: bool)
    requires Valid(f) && |vals| == NR_FIELDS && i < NR_FIELDS && v == vals[i]
    requires Progress(state, f, out, vals, i)
    modifies state, out
    ensures ok <==> FieldFits(f, vals, i)
    ensures ok ==> Progress(state, f, out, vals, i + 1)
    ensures forall j :: f.keyU64s <= j < out.Length ==> out[j] == old(out[j])
  {
    hide Lsh, Shr, Low, Value, Pow2, Stream, FieldValid;
    LowBitsRange(f);
    assert Total(f.bits, i + 1) == Total(f.bits, i) + f.bits[i];
    StreamStep(f.bits, Stored(f, vals), i);
    ok := state.SetIncField(Total(f.bits, i), Written(f, vals, i), i, v);
  }

  /** bch2_bkey_pack_key: packs k into the first words of out, or fails. */
  method PackKey(out: array<u64>, k: Key, f: Format) returns (ok: bool)
    requires Valid(f) && f.keyU64s <= out.Length
    modifies out
    ensures ok <==> Fits(f, k)
    ensures ok ==> Value(out[..f.keyU64s]) == Encode(f, k)
    ensures forall i :: f.keyU64s <= i < out.Length ==> out[i] == old(out[i])
  {
    hide Lsh, Shr, Low, Value, Pow2, Stream, FieldValid, FieldFits, Encode, Written, HeaderValue;
    LowBitsRange(f);
    out[0] := 0;
    var state := new PackState(f, out);
    var vals := Fields(k);
    var i := 0;
    WrittenNone(f, vals);
    while i < NR_FIELDS
      invariant 0 <= i <= NR_FIELDS
      invariant Progress(state, f, out, vals, i)
      invariant forall j :: 0 <= j < i ==> FieldFits(f, vals, j)
      invariant forall j :: f.keyU64s <= j < out.Length ==> out[j] == old(out[j])
    {
      ok := PackOne(state, f, out, vals, i, vals[i]);
      if !ok { return; }
      i := i + 1;
    }
    EncodeIs(f, k);
    var u64s := (f.keyU64s + k.u64s - BKEY_U64S) % 256;
    HeaderBound(u64s, k.needsWhiteout, k.keyType);
    state.FinishKey(Total(f.bits, NR_FIELDS), Written(f, vals, NR_FIELDS),
                    HeaderValue(u64s, KEY_FORMAT_LOCAL_BTREE, k.needsWhiteout, k.keyType));
    ok := true;
  }

  /**
   bch2_bkey_transform: re-encodes a key and its value from one format into
   another, field by field. The input key carries its value behind its own words.
   */
  method Transform(outFormat: Format, out: array<u64>, inFormat: Format, input: seq<u64>) returns (ok: bool)
    requires Valid(outFormat) && Valid(inFormat)
    requires inFormat.keyU64s <= |input| == HeaderU64s(input[0])
    requires outFormat.keyU64s + |input| - inFormat.keyU64s <= out.Length
    modifies out
    ensures ok <==> Fits(outFormat, Decode(inFormat, Value(input[..inFormat.keyU64s])))
    ensures ok ==> Value(out[..outFormat.keyU64s])
                   == Encode(outFormat, Decode(inFormat, Value(input[..inFormat.keyU64s])))
    ensures ok ==> out[outFormat.keyU64s..outFormat.keyU64s + |input| - inFormat.keyU64s]
                   == input[inFormat.keyU64s..]
    ensures forall i :: outFormat.keyU64s + |input| - inFormat.keyU64s <= i < out.Length ==> out[i] == old(out[i])
  {
    hide Lsh, Shr, Low, Value, Pow2, Stream, FieldValid, Fits, Decode, Encode;
    LowBitsRange(outFormat);
    LowBitsRange(inFormat);
    ok := TransformKey(outFormat, out, inFormat, input[..inFormat.keyU64s]);
    if !ok { return; }
    ghost var key := out[..outFormat.keyU64s];
    CopyWords(out, outFormat.keyU64s, input[inFormat.keyU64s..]);
    assert out[..outFormat.keyU64s] == key;
  }

  /** bch2_bkey_transform_key. */
  method TransformKey(outFormat: Format, out: array<u64>, inFormat: Format, words: seq<u64>) returns (ok: bool)
    requires Valid(outFormat) && Valid(inFormat)
    requires |words| == inFormat.keyU64s && outFormat.keyU64s <= out.Length
    modifies out
    ensures ok <==> Fits(outFormat, Decode(inFormat, Value(words)))
    ensures ok ==> Value(out[..outFormat.keyU64s]) == Encode(outFormat, Decode(inFormat, Value(words)))
    ensures forall i :: outFormat.keyU64s <= i < out.Length ==> out[i] == old(out[i])
  {
    hide Lsh, Shr, Low, Value, Pow2, Stream, Total, FieldValid, Fits, Decode, Encode,
         Written, HeaderU64s, HeaderNeedsWhiteout, HeaderType, HeaderValue;
    LowBitsRange(outFormat);
    LowBitsRange(inFormat);
    TotalNone(outFormat.bits);
    TotalNone(inFormat.bits);
    out[0] := 0;
    var outState := new PackState(outFormat, out);
    ghost var k := Decode(inFormat, Value(words));
    WrittenNone(outFormat, Fields(k));
    ok := TransformFields(outState, outFormat, out, inFormat, words, k);
    if !ok { return; }
    DecodeHeader(inFormat, words);
    EncodeIs(outFormat, k);
    var u64s := (outFormat.keyU64s + (HeaderU64s(words[0]) - inFormat.keyU64s)) % 256;
    HeaderBound(u64s, HeaderNeedsWhiteout(words[0]), HeaderType(words[0]));
    outState.FinishKey(Total(outFormat.bits, NR_FIELDS), Written(outFormat, Fields(k), NR_FIELDS),
                       HeaderValue(u64s, KEY_FORMAT_LOCAL_BTREE, HeaderNeedsWhiteout(words[0]), HeaderType(words[0])));
  }

  /** The loop of bch2_bkey_transform_key. */
  method TransformFields(outState: PackState, outFormat: Format, out: array<u64>, inFormat: Format, words: seq<u64>,
                         ghost k: Key)
    returns (ok: bool)
    requires Valid(outFormat) && Valid(inFormat)
    requires |words| == inFormat.keyU64s && k == Decode(inFormat, Value(words))
    requires Progress(outState, outFormat, out, Fields(k), 0)
    modifies outState, out
    ensures ok <==> Fits(outFormat, k)
    ensures ok ==> Progress(outState, outFormat, out, Fields(k), NR_FIELDS)
    ensures forall i :: outFormat.keyU64s <= i < out.Length ==> out[i] == old(out[i])
  {
    hide Lsh, Shr, Low, Value, Pow2, Stream, Total, FieldValid, FieldFits, Decode, Written;
    LowBitsRange(inFormat);
    TotalNone(inFormat.bits);
    var inState := new UnpackState(inFormat, words);
    var i := 0;
    while i < NR_FIELDS
      invariant 0 <= i <= NR_FIELDS
      invariant inState.f == inFormat && inState.words == words
      invariant inState.At(Total(inFormat.bits, i))
      invariant Progress(outState, outFormat, out, Fields(k), i)
      invariant forall j :: 0 <= j < i ==> FieldFits(outFormat, Fields(k), j)
      invariant forall j :: outFormat.keyU64s <= j < out.Length ==> out[j] == old(out[j])
    {
      var v := GetField(inState, inFormat, words, i);
      ok := PackOne(outState, outFormat, out, Fields(k), i, v);
      if !ok { return; }
      i := i + 1;
    }
    ok := true;
  }

  lemma {:induction false} DecodeHeader(f: Format, words: seq<u64>)
    requires Valid(f) && |words| == f.keyU64s > 0
    ensures var k := Decode(f, Value(words));
            && k.u64s == (BKEY_U64S + HeaderU64s(words[0]) - f.keyU64s) % 256
            && k.needsWhiteout == HeaderNeedsWhiteout(words[0])
            && k.keyType == HeaderType(words[0])
  {
    hide Lsh, Value, DecodeField;
    HeaderOfValue(words);
  }

  lemma {:induction false} EncodeIs(f: Format, k: Key)
    requires Valid(f) && Fits(f, k)
    ensures LowBits(f) >= 0
    ensures Encode(f, k)
            == Lsh(Written(f, Fields(k), NR_FIELDS), LowBits(f))
               + HeaderValue((f.keyU64s + k.u64s - BKEY_U64S) % 256, KEY_FORMAT_LOCAL_BTREE, k.needsWhiteout, k.keyType)
  {
    LowBitsRange(f);
  }

  /** memcpy of 64-bit words. */
  method CopyWords(dst: array<u64>, at: nat, src: seq<u64>)
    requires at + |src| <= dst.Length
    modifies dst
    ensures dst[at..at + |src|] == src
    ensures forall i :: 0 <= i < dst.Length && !(at <= i < at + |src|) ==> dst[i] == old(dst[i])
  {
    for i := 0 to |src|
      invariant dst[at..at + i] == src[..i]
      invariant forall j :: 0 <= j < dst.Length && !(at <= j < at + i) ==> dst[j] == old(dst[j])
    {
      dst[at + i] := src[i];
      assert dst[at..at + i + 1] == dst[at..at + i] + [src[i]];
    }
  }

  /** Reads field i of a key in a valid format. */
  method GetField(state: UnpackState, f: Format, words: seq<u64>, i: nat) returns (v: u64)
    requires Valid(f) && |words| == f.keyU64s && i < NR_FIELDS
    requires state.f == f && state.words == words && state.At(Total(f.bits, i))
    modifies state
    ensures state.At(Total(f.bits, i + 1))
    ensures v == Fields(Decode(f, Value(words)))[i]
  {
    hide Lsh, Shr, Low, Value, Pow2, FieldValid;
    LowBitsRange(f);
    DecodeFieldNoWrap(f, Value(words), i);
    assert Total(f.bits, i + 1) == Total(f.bits, i) + f.bits[i];
    v := state.GetIncField(Total(f.bits, i), i);
    assert v == DecodeField(f, Value(words), i);
  }

  /** __bch2_bkey_unpack_key. */
  method UnpackKey(f: Format, words: seq<u64>) returns (k: Key)
    requires Valid(f) && |words| == f.keyU64s
    ensures k == Decode(f, Value(words))
  {
    hide Lsh, Shr, Low, Value, Pow2, Total, FieldValid, Decode, HeaderU64s, HeaderNeedsWhiteout, HeaderType;
    LowBitsRange(f);
    TotalNone(f.bits);
    var state := new UnpackState(f, words);
    var vals: seq<u64> := [];
    while |vals| < NR_FIELDS
      invariant |vals| <= NR_FIELDS && state.f == f && state.words == words
      invariant state.At(Total(f.bits, |vals|))
      invariant forall i :: 0 <= i < |vals| ==> vals[i] == Fields(Decode(f, Value(words)))[i]
    {
      var v := GetField(state, f, words, |vals|);
      vals := vals + [v];
    }
    DecodeHeader(f, words);
    k := Key(Bpos(vals[0], vals[1], vals[2] % W32), vals[3] % W32, vals[4] % W32, vals[5],
             (BKEY_U64S + HeaderU64s(words[0]) - f.keyU64s) % 256,
             HeaderNeedsWhiteout(words[0]), HeaderType(words[0]));
  }

  /** __bkey_unpack_pos. */
  method UnpackPos(f: Format, words: seq<u64>) returns (p: Bpos)
    requires Valid(f) && |words| == f.keyU64s
    ensures p == DecodePos(f, Value(words))
  {
    hide Lsh, Shr, Low, Value, Pow2, Total, FieldValid;
    LowBitsRange(f);
    TotalNone(f.bits);
    var state := new UnpackState(f, words);
    var inode := GetField(state, f, words, 0);
    var offset := GetField(state, f, words, 1);
    var snapshot := GetField(state, f, words, 2);
    p := Bpos(inode, offset, snapshot % W32);
  }

  lemma TotalNone(bits: seq<nat>)
    ensures Total(bits, 0) == 0
  {
  }

  lemma WrittenNone(f: Format, vals: seq<u64>)
    requires f.Shape() && |vals| == NR_FIELDS
    ensures Written(f, vals, 0) == 0
  {
  }

  lemma StreamStep(bits: seq<nat>, vals: seq<nat>, i: nat)
    requires i < |bits| && i < |vals|
    ensures Stream(bits, vals, i + 1) == Lsh(Stream(bits, vals, i), bits[i]) + vals[i]
  {
  }

  lemma ValueCons(words: seq<u64>)
    requires |words| > 0
    ensures Value(words) == words[0] + Lsh(Value(words[1..]), 64)
  {
  }

  lemma NoBits(v: nat)
    ensures v < Pow2(0) ==> v == 0
  {
  }

  lemma {:induction false} PendingLow(acc: nat, high: nat, w: u64, bits: nat)
    requires bits <= 64 && Lsh(high, 64) + w == Lsh(acc, bits)
    ensures Low(w, bits) == 0
    ensures Pow2(bits) <= W64 == Pow2(64)
  {
    hide Lsh, Shr, Low;
    Pow2Values();
    Pow2Monotone(bits, 64);
    ShrLsh(acc, bits, bits);
    LshLsh(high, 64 - bits, bits);
    LowAddMultiple(Lsh(high, 64 - bits), w, bits);
  }

  /** A field that ends in the next word: its high bits complete word p. */
  lemma {:induction false} PackCarry(acc: nat, high: nat, w: u64, bits: nat, v: u64, rest: nat)
    requires bits <= 64 && 1 <= rest <= 64 && Lsh(high, 64) + w == Lsh(acc, bits)
    requires v < Pow2(bits + rest)
    ensures Or(w, Shr(Shr(v, 1), rest - 1)) < W64
    ensures Lsh(Or(w, Shr(Shr(v, 1), rest - 1)) + Lsh(high, 64), 64) + Shl(v, 64 - rest)
            == Lsh(Lsh(acc, bits + rest) + v, 64 - rest)
  {
    hide Lsh, Shr, Low, Or, Pow2;
    var v1 := Shr(v, rest);
    ShrShr(v, 1, rest - 1);
    Pow2IsLsh(bits);
    LshLsh(1, bits, rest);
    Pow2IsLsh(bits + rest);
    ShrLt(v, Pow2(bits), rest);
    PendingLow(acc, high, w, bits);
    OrDisjoint(w, v1, bits);
    OrBound(w, v1, 64);
    // the two halves of v
    Split(v, rest);
    WordIsLow(Lsh(v, 64 - rest));
    Pow2Positive(64 - rest);
    LowJoin(v, 0, 64 - rest, rest);
    var x := Lsh(acc, bits) + v1;
    LshLsh(x, rest, 64 - rest);
    LshAdd(Lsh(acc, bits), v1, rest);
    LshLsh(acc, bits, rest);
    LshAdd(Lsh(x, rest), Low(v, rest), 64 - rest);
  }

  /** A field that fits in what is left of word p. */
  lemma {:induction false} PackInside(acc: nat, high: nat, w: u64, bits: nat, v: u64, b: nat)
    requires b <= bits <= 64 && Lsh(high, 64) + w == Lsh(acc, bits) && v < Pow2(b)
    ensures Or(w, Shl(v, bits - b)) < W64
    ensures Lsh(high, 64) + Or(w, Shl(v, bits - b)) == Lsh(Lsh(acc, b) + v, bits - b)
  {
    hide Lsh, Shr, Low, Or, Pow2;
    var y := Lsh(v, bits - b);
    PendingLow(acc, high, w, bits);
    LshGap(v, Pow2(b), bits - b);
    Pow2IsLsh(b);
    LshLsh(1, b, bits - b);
    Pow2IsLsh(bits);
    Pow2Positive(bits - b);
    assert Shl(v, bits - b) == y;
    OrDisjoint(w, y, bits);
    OrBound(w, y, 64);
    LshAdd(Lsh(acc, b), v, bits - b);
    LshLsh(acc, b, bits - b);
  }

  lemma Pow2IsLsh(k: nat)
    ensures Pow2(k) == Lsh(1, k)
  {
  }

  lemma Pow2Positive(k: nat)
    ensures Pow2(k) > 0
  {
  }

  // ---- the codec laws ----

  lemma {:induction false} HeaderFields(x: nat, u64s: u8, needsWhiteout: bool, keyType: u8)
    ensures var v := 0x100_0000 * x + HeaderValue(u64s, KEY_FORMAT_LOCAL_BTREE, needsWhiteout, keyType);
            HeaderU64s(v) == u64s && HeaderNeedsWhiteout(v) == needsWhiteout && HeaderType(v) == keyType
  {
    var h := HeaderValue(u64s, KEY_FORMAT_LOCAL_BTREE, needsWhiteout, keyType);
    assert (0x100_0000 * x + h) % 0x100_0000 == h;
  }

  /** Packing then unpacking returns the key, header included. */
  lemma {:induction false} RoundTrip(f: Format, k: Key)
    requires Valid(f) && Fits(f, k)
    ensures Decode(f, Encode(f, k)) == k
  {
    hide Lsh, Shr, Low, Pow2, Stream, HeaderU64s, HeaderNeedsWhiteout, HeaderType, HeaderValue;
    LowBitsRange(f);
    var s := LowBits(f);
    var st := Stream(f.bits, Stored(f, Fields(k)), NR_FIELDS);
    var u64s := (f.keyU64s + k.u64s - BKEY_U64S) % 256;
    HeaderBound(u64s, k.needsWhiteout, k.keyType);
    LshLsh(st, s - 24, 24);
    Lsh24(Lsh(st, s - 24));
    HeaderFields(Lsh(st, s - 24), u64s, k.needsWhiteout, k.keyType);
    forall i | 0 <= i < NR_FIELDS
      ensures DecodeField(f, Encode(f, k), i) == Fields(k)[i]
    {
      FieldRoundTrip(f, k, i);
    }
    assert DecodeField(f, Encode(f, k), 0) == k.p.inode;
    assert DecodeField(f, Encode(f, k), 1) == k.p.offset;
    assert DecodeField(f, Encode(f, k), 2) == k.p.snapshot;
    assert DecodeField(f, Encode(f, k), 3) == k.size;
    assert DecodeField(f, Encode(f, k), 4) == k.versionHi;
    assert DecodeField(f, Encode(f, k), 5) == k.versionLo;
  }

  lemma {:induction false} StoredBound(f: Format, vals: seq<u64>, i: nat)
    requires f.Shape() && i < |vals| <= NR_FIELDS && FieldFits(f, vals, i)
    ensures Stored(f, vals)[i] < Pow2(f.bits[i])
  {
  }

  lemma {:induction false} FieldRoundTrip(f: Format, k: Key, i: nat)
    requires Valid(f) && Fits(f, k) && i < NR_FIELDS
    ensures DecodeField(f, Encode(f, k), i) == Fields(k)[i]
  {
    hide Lsh, Shr, Low, Pow2, Stream;
    LowBitsRange(f);
    var vals := Stored(f, Fields(k));
    forall j | 0 <= j < NR_FIELDS
      ensures vals[j] < Pow2(f.bits[j])
    {
      StoredBound(f, Fields(k), j);
    }
    var u64s := (f.keyU64s + k.u64s - BKEY_U64S) % 256;
    HeaderBound(u64s, k.needsWhiteout, k.keyType);
    Pow2Values();
    Pow2Monotone(24, LowBits(f));
    StreamDecode(f.bits, vals, NR_FIELDS, i,
                 HeaderValue(u64s, KEY_FORMAT_LOCAL_BTREE, k.needsWhiteout, k.keyType), LowBits(f));
    assert FieldFits(f, Fields(k), i);
  }

  /** The raw fields of v, put back one after the other, are the top bits of v. */
  lemma {:induction false} RawStream(f: Format, v: nat, i: nat)
    requires Valid(f) && i <= NR_FIELDS && v < Pow2(64 * f.keyU64s)
    ensures Total(f.bits, i) <= 64 * f.keyU64s
    ensures Stream(f.bits, RawFields(f, v), i) == Shr(v, 64 * f.keyU64s - Total(f.bits, i))
  {
    hide Lsh, Shr, Low, Pow2, RawField;
    LowBitsRange(f);
    if i == 0 {
      LowSmall(v, 64 * f.keyU64s);
    } else {
      RawStream(f, v, i - 1);
      var s := 64 * f.keyU64s - Total(f.bits, i);
      ShrShr(v, s, f.bits[i - 1]);
      Split(Shr(v, s), f.bits[i - 1]);
      RawFieldIs(f, v, i - 1);
    }
  }

  ghost function RawFields(f: Format, v: nat): (r: seq<nat>)
    requires Valid(f)
    ensures |r| == NR_FIELDS
  {
    LowBitsRange(f);
    seq(NR_FIELDS, i requires 0 <= i < NR_FIELDS => RawField(f, v, i))
  }

  lemma RawFieldIs(f: Format, v: nat, i: nat)
    requires Valid(f) && i < NR_FIELDS
    ensures Total(f.bits, i + 1) <= 64 * f.keyU64s
    ensures RawFields(f, v)[i] == Low(Shr(v, 64 * f.keyU64s - Total(f.bits, i + 1)), f.bits[i])
  {
    LowBitsRange(f);
  }

  /** The padding of v is zero and its format is the node's own. */
  ghost predicate Canonical(f: Format, v: nat)
    requires Valid(f)
  {
    && v < Pow2(64 * f.keyU64s)
    && LowBits(f) >= 0
    && Low(v, LowBits(f)) == HeaderValue(HeaderU64s(v), KEY_FORMAT_LOCAL_BTREE, HeaderNeedsWhiteout(v), HeaderType(v))
  }

  /** Unpacking then packing returns the same words: the codec is a bijection onto them. */
  lemma {:induction false} Repack(f: Format, v: nat)
    requires Valid(f) && Canonical(f, v)
    ensures Fits(f, Decode(f, v)) && Encode(f, Decode(f, v)) == v
  {
    hide Lsh, Shr, Low, Pow2, Stream, RawField, HeaderU64s, HeaderNeedsWhiteout, HeaderType, HeaderValue;
    LowBitsRange(f);
    var k := Decode(f, v);
    DecodedFits(f, v);
    var n, s := f.keyU64s, LowBits(f);
    RawStream(f, v, NR_FIELDS);
    Split(v, s);
    assert Stored(f, Fields(k)) == RawFields(f, v) by { DecodedStored(f, v); }
  }

  lemma {:induction false} DecodedFits(f: Format, v: nat)
    requires Valid(f)
    ensures Fits(f, Decode(f, v))
  {
    hide Lsh, Shr, Low, Pow2;
    LowBitsRange(f);
    var k := Decode(f, v);
    forall i | 0 <= i < NR_FIELDS
      ensures FieldFits(f, Fields(k), i)
    {
      Split(Shr(v, 64 * f.keyU64s - Total(f.bits, i + 1)), f.bits[i]);
      assert Fields(k)[i] == DecodeField(f, v, i);
    }
  }

  lemma {:induction false} DecodedStored(f: Format, v: nat)
    requires Valid(f)
    ensures Stored(f, Fields(Decode(f, v))) == RawFields(f, v)
  {
    hide Lsh, Shr, Low, Pow2;
    LowBitsRange(f);
    var k := Decode(f, v);
    forall i | 0 <= i < NR_FIELDS
      ensures Stored(f, Fields(k))[i] == RawFields(f, v)[i]
    {
      assert Fields(k)[i] == DecodeField(f, v, i);
    }
  }
}
