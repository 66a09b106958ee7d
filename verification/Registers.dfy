/** The bit-field registers of src/nhtl-extoll/configure_fpga.cpp: mutable
    records over one 64-bit word, and what any sequence of their setters does. */
module Registers {
  import opened Bits

  /** A 64-bit register word, least significant bit first. */
  type Raw = s: seq<bool> | |s| == 64 witness seq(64, i => false)

  function AndRaw(a: Raw, b: Raw): Raw { seq(64, i requires 0 <= i < 64 => a[i] && b[i]) }

  function OrRaw(a: Raw, b: Raw): Raw { seq(64, i requires 0 <= i < 64 => a[i] || b[i]) }

  function NotRaw(a: Raw): Raw { seq(64, i requires 0 <= i < 64 => !a[i]) }

  function Shl(a: Raw, k: nat): Raw { seq(64, i requires 0 <= i < 64 => i >= k && a[i - k]) }

  function Shr(a: Raw, k: nat): Raw { seq(64, i requires 0 <= i < 64 => i + k < 64 && a[i + k]) }

  /** The `width` least significant bits set. */
  function Ones(width: nat): Raw { seq(64, i requires 0 <= i < 64 => i < width) }

  // ------------------------------------------------------- words as numbers

  function ToNat(bits: seq<bool>): nat {
    if bits == [] then 0 else (if bits[0] then 1 else 0) + 2 * ToNat(bits[1..])
  }

  function BitsOf(v: nat, n: nat): (bits: seq<bool>)
    ensures |bits| == n
  {
    if n == 0 then [] else [v % 2 == 1] + BitsOf(v / 2, n - 1)
  }

  /** The word of an unsigned number, which is cut to 64 bits. */
  function Word64(v: nat): Raw { BitsOf(v, 64) }

  lemma {:induction false} ToNatOfBits(v: nat, n: nat)
    ensures ToNat(BitsOf(v, n)) == v % Pow2(n)
  {
    if n > 0 {
      ToNatOfBits(v / 2, n - 1);
      ModOfHalf(v, Pow2(n - 1));
      assert BitsOf(v, n)[1..] == BitsOf(v / 2, n - 1);
    }
  }

  lemma {:induction false} BitsOfPrefix(v: nat, n: nat, w: nat)
    requires w <= n
    ensures BitsOf(v, n)[..w] == BitsOf(v, w)
  {
    if w > 0 {
      BitsOfPrefix(v / 2, n - 1, w - 1);
      assert BitsOf(v, n)[..w] == [v % 2 == 1] + BitsOf(v / 2, n - 1)[..w - 1];
    }
  }

  lemma {:induction false} ToNatPadded(bits: seq<bool>, n: nat)
    ensures ToNat(bits + seq(n, i => false)) == ToNat(bits)
    decreases |bits|, n
  {
    var padded := bits + seq(n, i => false);
    if bits != [] {
      assert padded[1..] == bits[1..] + seq(n, i => false);
      ToNatPadded(bits[1..], n);
    } else if n > 0 {
      assert padded[1..] == [] + seq(n - 1, i => false);
      ToNatPadded([], n - 1);
    }
  }

  lemma DoubleSplit(low: nat, p: nat, high: nat)
    ensures 2 * (low + p * high) == 2 * low + (2 * p) * high
  {
  }

  /** A number is the sum of its low and its shifted high part. */
  lemma {:induction false} ToNatSplit(bits: seq<bool>, k: nat)
    requires k <= |bits|
    ensures ToNat(bits) == ToNat(bits[..k]) + Pow2(k) * ToNat(bits[k..])
  {
    if k == 0 {
      assert bits[..0] == [] && bits[0..] == bits;
    } else {
      ToNatSplit(bits[1..], k - 1);
      assert bits[..k][1..] == bits[1..][..k - 1] && bits[1..][k - 1..] == bits[k..];
      DoubleSplit(ToNat(bits[1..][..k - 1]), Pow2(k - 1), ToNat(bits[k..]));
    }
  }

  // ------------------------------------------------------------- bit fields

  /** A field of `width` bits starting at bit `shift`. */
  datatype Field = Field(shift: nat, width: nat)

  predicate Inside(f: Field) { f.shift + f.width <= 64 }

  predicate Apart(f: Field, g: Field) {
    f.shift + f.width <= g.shift || g.shift + g.width <= f.shift
  }

  /** `(uint64_t(value) & mask) << shift` */
  function Place(f: Field, value: nat): Raw {
    Shl(AndRaw(Word64(value), Ones(f.width)), f.shift)
  }

  /** `raw >> shift & mask`, as a number */
  function FieldOf(raw: Raw, f: Field): nat {
    ToNat(AndRaw(Shr(raw, f.shift), Ones(f.width)))
  }

  /** The setters that clear a field before they write it. */
  function Overwrite(raw: Raw, f: Field, value: nat): Raw {
    OrRaw(AndRaw(raw, NotRaw(Shl(Ones(f.width), f.shift))), Place(f, value))
  }

  /** The setters that only add bits. */
  function OrInto(raw: Raw, f: Field, value: nat): Raw {
    OrRaw(raw, Place(f, value))
  }

  /** The part of a word from one bit up, cut after a field that begins there. */
  lemma SplitField(raw: Raw, f: Field)
    requires Inside(f)
    ensures ToNat(raw[f.shift..]) == FieldOf(raw, f) + Pow2(f.width) * ToNat(raw[f.shift + f.width..])
  {
    GetIsSlice(raw, f);
    ToNatSplit(raw[f.shift..], f.width);
    assert raw[f.shift..][..f.width] == raw[f.shift..f.shift + f.width];
    assert raw[f.shift..][f.width..] == raw[f.shift + f.width..];
  }

  /** Reading depends on the bits of the field only. */
  lemma GetIsSlice(raw: Raw, f: Field)
    requires Inside(f)
    ensures FieldOf(raw, f) == ToNat(raw[f.shift..f.shift + f.width])
  {
    var slice := raw[f.shift..f.shift + f.width];
    assert AndRaw(Shr(raw, f.shift), Ones(f.width)) == slice + seq(64 - f.width, i => false);
    ToNatPadded(slice, 64 - f.width);
  }

  lemma OverwriteSlice(raw: Raw, f: Field, value: nat)
    requires Inside(f)
    ensures Overwrite(raw, f, value)[f.shift..f.shift + f.width] == BitsOf(value, f.width)
    ensures forall i :: 0 <= i < 64 && !(f.shift <= i < f.shift + f.width) ==> Overwrite(raw, f, value)[i] == raw[i]
  {
    BitsOfPrefix(value, 64, f.width);
    var slice := Overwrite(raw, f, value)[f.shift..f.shift + f.width];
    forall i | 0 <= i < f.width
      ensures slice[i] == BitsOf(value, f.width)[i]
    {
      assert slice[i] == Overwrite(raw, f, value)[f.shift + i] == Word64(value)[i];
      assert Word64(value)[i] == Word64(value)[..f.width][i];
    }
  }

  /** An overwriting setter gives its field the value modulo the field's width
      and leaves every other field alone. */
  lemma GetAfterOverwrite(raw: Raw, f: Field, value: nat, g: Field)
    requires Inside(f) && Inside(g) && (f == g || Apart(f, g))
    ensures FieldOf(Overwrite(raw, f, value), g) == if f == g then value % Pow2(f.width) else FieldOf(raw, g)
  {
    OverwriteSlice(raw, f, value);
    GetIsSlice(raw, g);
    GetIsSlice(Overwrite(raw, f, value), g);
    if f == g {
      ToNatOfBits(value, f.width);
    } else {
      assert Overwrite(raw, f, value)[g.shift..g.shift + g.width] == raw[g.shift..g.shift + g.width];
    }
  }

  // --------------------------------------------------------- HostEndpoint

  const NODE_ID: Field := Field(0, 16)
  const PROTECTION_DOMAIN: Field := Field(16, 16)
  const VPID: Field := Field(32, 10)
  const MODE: Field := Field(42, 6)

  predicate IsHostField(f: Field) {
    f == NODE_ID || f == PROTECTION_DOMAIN || f == VPID || f == MODE
  }

  datatype Setter = Setter(field: Field, value: nat)

  function OverwriteAll(raw: Raw, setters: seq<Setter>): Raw {
    if setters == [] then raw
    else
      var last := setters[|setters| - 1];
      Overwrite(OverwriteAll(raw, setters[..|setters| - 1]), last.field, last.value)
  }

  /** The value the last setter of a field gave it, reduced to the field's width;
      `before` if there is none. */
  function LastValue(setters: seq<Setter>, f: Field, before: nat): nat {
    if setters == [] then before
    else if setters[|setters| - 1].field == f then setters[|setters| - 1].value % Pow2(f.width)
    else LastValue(setters[..|setters| - 1], f, before)
  }

  lemma HostStep(raw: Raw, f: Field, value: nat, g: Field)
    requires IsHostField(f) && IsHostField(g)
    ensures FieldOf(Overwrite(raw, f, value), g) == if f == g then value % Pow2(f.width) else FieldOf(raw, g)
    ensures Overwrite(raw, f, value)[48..] == raw[48..]
  {
    GetAfterOverwrite(raw, f, value, g);
    OverwriteSlice(raw, f, value);
  }

  /** After any sequence of HostEndpoint setters every field reads as its last
      value modulo its width, and the 16 bits that belong to no field are kept. */
  lemma {:induction false} HostFieldsIndependent(raw: Raw, setters: seq<Setter>, f: Field)
    requires IsHostField(f) && forall s :: s in setters ==> IsHostField(s.field)
    ensures FieldOf(OverwriteAll(raw, setters), f) == LastValue(setters, f, FieldOf(raw, f))
    ensures OverwriteAll(raw, setters)[48..] == raw[48..]
  {
    if setters != [] {
      var front, last := setters[..|setters| - 1], setters[|setters| - 1];
      HostFieldsIndependent(raw, front, f);
      HostStep(OverwriteAll(raw, front), last.field, last.value, f);
    }
  }

  /** The four fields and the unused bits determine the word. */
  lemma {:induction false} ToNatInjective(a: seq<bool>, b: seq<bool>)
    requires |a| == |b| && ToNat(a) == ToNat(b)
    ensures a == b
  {
    if a != [] {
      assert a[0] == b[0];
      ToNatInjective(a[1..], b[1..]);
      assert a == [a[0]] + a[1..] && b == [b[0]] + b[1..];
    }
  }

  lemma HostFieldsDetermineWord(a: Raw, b: Raw)
    requires forall f :: IsHostField(f) ==> FieldOf(a, f) == FieldOf(b, f)
    requires a[48..] == b[48..]
    ensures a == b
  {
    HostFieldSlice(a, b, NODE_ID);
    HostFieldSlice(a, b, PROTECTION_DOMAIN);
    HostFieldSlice(a, b, VPID);
    HostFieldSlice(a, b, MODE);
    assert a == a[0..16] + a[16..32] + a[32..42] + a[42..48] + a[48..];
    assert b == b[0..16] + b[16..32] + b[32..42] + b[42..48] + b[48..];
  }

  lemma HostFieldSlice(a: Raw, b: Raw, f: Field)
    requires Inside(f) && FieldOf(a, f) == FieldOf(b, f)
    ensures a[f.shift..f.shift + f.width] == b[f.shift..f.shift + f.width]
  {
    GetIsSlice(a, f);
    GetIsSlice(b, f);
    ToNatInjective(a[f.shift..f.shift + f.width], b[f.shift..f.shift + f.width]);
  }

  // -------------------------------------------------- NotificationBehaviour

  const TIMEOUT: Field := Field(0, 32)
  const FREQUENCY: Field := Field(32, 32)

  /** The constructor ORs both fields into a zero word. */
  function NotificationBehaviour(timeout: nat, frequency: nat): Raw {
    OrInto(OrInto(Word64(0), TIMEOUT, timeout), FREQUENCY, frequency)
  }

  /** Both setters of this register assign the whole word. */
  function Assign(f: Field, value: nat): Raw { Place(f, value) }

  lemma {:induction false} ZeroBits(n: nat)
    ensures BitsOf(0, n) == seq(n, i => false)
  {
    if n > 0 {
      ZeroBits(n - 1);
    }
  }

  /** Placing into a zero word is overwriting it. */
  lemma PlaceIsOverwrite(f: Field, value: nat)
    requires Inside(f)
    ensures Place(f, value) == Overwrite(Word64(0), f, value)
  {
    ZeroBits(64);
  }

  lemma GetOfZero(f: Field)
    requires Inside(f)
    ensures FieldOf(Word64(0), f) == 0
  {
    ZeroBits(64);
    GetIsSlice(Word64(0), f);
    assert Word64(0)[f.shift..f.shift + f.width] == [] + seq(f.width, i => false);
    ToNatPadded([], f.width);
  }

  lemma EmptyFieldBits(raw: Raw, f: Field)
    requires Inside(f) && FieldOf(raw, f) == 0
    ensures forall i :: f.shift <= i < f.shift + f.width ==> !raw[i]
  {
    GetOfZero(f);
    HostFieldSlice(raw, Word64(0), f);
    ZeroBits(64);
    var slice, zero := raw[f.shift..f.shift + f.width], Word64(0)[f.shift..f.shift + f.width];
    forall i | f.shift <= i < f.shift + f.width
      ensures !raw[i]
    {
      assert raw[i] == slice[i - f.shift] == zero[i - f.shift] == Word64(0)[i];
    }
  }

  /** ORing into a field that reads zero is overwriting it. */
  lemma OrIntoEmptyField(raw: Raw, f: Field, value: nat)
    requires Inside(f) && FieldOf(raw, f) == 0
    ensures OrInto(raw, f, value) == Overwrite(raw, f, value)
  {
    EmptyFieldBits(raw, f);
  }

  /** The constructor keeps both values, cut to 32 bits. */
  lemma NotificationBehaviourReadsBack(timeout: nat, frequency: nat)
    ensures FieldOf(NotificationBehaviour(timeout, frequency), TIMEOUT) == timeout % TWO_32
    ensures FieldOf(NotificationBehaviour(timeout, frequency), FREQUENCY) == frequency % TWO_32
  {
    PowersOfTwo();
    GetOfZero(TIMEOUT);
    GetOfZero(FREQUENCY);
    OrIntoEmptyField(Word64(0), TIMEOUT, timeout);
    var first := Overwrite(Word64(0), TIMEOUT, timeout);
    GetAfterOverwrite(Word64(0), TIMEOUT, timeout, TIMEOUT);
    GetAfterOverwrite(Word64(0), TIMEOUT, timeout, FREQUENCY);
    OrIntoEmptyField(first, FREQUENCY, frequency);
    GetAfterOverwrite(first, FREQUENCY, frequency, TIMEOUT);
    GetAfterOverwrite(first, FREQUENCY, frequency, FREQUENCY);
  }

  /** The register word: the timeout in the low half, the frequency in the high half. */
  lemma NotificationBehaviourNumber(timeout: nat, frequency: nat)
    ensures ToNat(NotificationBehaviour(timeout, frequency)) == timeout % TWO_32 + TWO_32 * (frequency % TWO_32)
  {
    var word := NotificationBehaviour(timeout, frequency);
    NotificationBehaviourReadsBack(timeout, frequency);
    HalvesNumber(word);
  }

  lemma HalvesNumber(raw: Raw)
    ensures ToNat(raw) == FieldOf(raw, Field(0, 32)) + TWO_32 * FieldOf(raw, Field(32, 32))
  {
    PowersOfTwo();
    assert raw[0..] == raw && raw[64..] == [];
    SplitField(raw, Field(0, 32));
    SplitField(raw, Field(32, 32));
  }

  /** What the setters of this register leave in the whole word. */
  lemma AssignNumber(value: nat)
    ensures ToNat(Assign(TIMEOUT, value)) == value % TWO_32
    ensures ToNat(Assign(FREQUENCY, value)) == TWO_32 * (value % TWO_32)
  {
    SettersEraseSibling(FREQUENCY, 0, TIMEOUT, value);
    SettersEraseSibling(TIMEOUT, 0, FREQUENCY, value);
    HalvesNumber(Assign(TIMEOUT, value));
    HalvesNumber(Assign(FREQUENCY, value));
  }

  /** A setter of this register erases its sibling: setting one field and then
      the other reads both back if and only if the first value was zero. */
  lemma SettersEraseSibling(first: Field, firstValue: nat, second: Field, secondValue: nat)
    requires {first, second} == {TIMEOUT, FREQUENCY}
    ensures FieldOf(Assign(second, secondValue), second) == secondValue % TWO_32
    ensures FieldOf(Assign(second, secondValue), first) == 0
    ensures FieldOf(Assign(second, secondValue), first) == firstValue % TWO_32 <==> firstValue % TWO_32 == 0
  {
    assert first in {first, second} && second in {first, second};
    assert first != second by {
      assert TIMEOUT in {first, second} && FREQUENCY in {first, second};
    }
    PowersOfTwo();
    PlaceIsOverwrite(second, secondValue);
    GetAfterOverwrite(Word64(0), second, secondValue, second);
    GetAfterOverwrite(Word64(0), second, secondValue, first);
    GetOfZero(first);
  }

  // ------------------------------------------------------------------ Info

  const GUID: Field := Field(0, 24)
  const NDID: Field := Field(24, 16)
  const WAFER_ID: Field := Field(40, 8)
  const SOCKET_ID: Field := Field(48, 4)
  const EDGE_ID: Field := Field(52, 2)

  predicate IsInfoField(f: Field) {
    f == GUID || f == NDID || f == WAFER_ID || f == SOCKET_ID || f == EDGE_ID
  }

  /** Info setters never clear. */
  function OrIntoAll(raw: Raw, setters: seq<Setter>): Raw {
    if setters == [] then raw
    else
      var last := setters[|setters| - 1];
      OrInto(OrIntoAll(raw, setters[..|setters| - 1]), last.field, last.value)
  }

  /** Bit i of a field is set by some setter of that field. */
  predicate SetBySome(setters: seq<Setter>, f: Field, i: nat)
    requires i < 64
  {
    exists s :: s in setters && s.field == f && Word64(s.value)[i]
  }

  lemma InfoStep(raw: Raw, g: Field, value: nat, f: Field, i: nat)
    requires IsInfoField(f) && IsInfoField(g) && i < f.width
    ensures OrInto(raw, g, value)[f.shift + i] == (raw[f.shift + i] || (g == f && Word64(value)[i]))
  {
    assert g != f ==> Apart(g, f);
  }

  /** Any sequence of Info setters leaves every field with the OR of its old bits
      and all values given to it, and no field with bits of another's values. */
  lemma {:induction false} InfoFieldsAccumulate(raw: Raw, setters: seq<Setter>, f: Field, i: nat)
    requires IsInfoField(f) && forall s :: s in setters ==> IsInfoField(s.field)
    requires i < f.width
    ensures OrIntoAll(raw, setters)[f.shift + i] <==> raw[f.shift + i] || SetBySome(setters, f, i)
  {
    if setters != [] {
      var front, last := setters[..|setters| - 1], setters[|setters| - 1];
      InfoFieldsAccumulate(raw, front, f, i);
      assert setters == front + [last];
      InfoStep(OrIntoAll(raw, front), last.field, last.value, f, i);
    }
  }

  /** The word as a number, field by field. */
  lemma InfoNumber(raw: Raw)
    ensures ToNat(raw)
            == FieldOf(raw, Field(0, 24)) + 0x100_0000 * FieldOf(raw, Field(24, 16))
               + 0x100_0000_0000 * FieldOf(raw, Field(40, 8)) + 0x1_0000_0000_0000 * FieldOf(raw, Field(48, 4))
               + 0x10_0000_0000_0000 * FieldOf(raw, Field(52, 2)) + 0x40_0000_0000_0000 * ToNat(raw[54..])
  {
    HostPowers();
    assert raw[0..] == raw;
    SplitField(raw, Field(0, 24));
    SplitField(raw, Field(24, 16));
    SplitField(raw, Field(40, 8));
    SplitField(raw, Field(48, 4));
    SplitField(raw, Field(52, 2));
  }

  /** Setting a field that reads zero gives it the value and changes nothing else. */
  lemma InfoPut(raw: Raw, f: Field, value: nat)
    requires IsInfoField(f) && FieldOf(raw, f) == 0
    ensures forall g :: IsInfoField(g) ==>
              FieldOf(OrInto(raw, f, value), g) == if f == g then value % Pow2(f.width) else FieldOf(raw, g)
    ensures OrInto(raw, f, value)[54..] == raw[54..]
  {
    OrIntoEmptyField(raw, f, value);
    OverwriteSlice(raw, f, value);
    forall g | IsInfoField(g)
      ensures FieldOf(OrInto(raw, f, value), g) == if f == g then value % Pow2(f.width) else FieldOf(raw, g)
    {
      GetAfterOverwrite(raw, f, value, g);
    }
  }

  /** The constructor ORs all five fields into a zero word. */
  function InfoWord(guid: nat, ndid: nat, waferId: nat, socketId: nat, edgeId: nat): Raw {
    OrInto(OrInto(OrInto(OrInto(OrInto(Word64(0), GUID, guid), NDID, ndid), WAFER_ID, waferId), SOCKET_ID, socketId),
           EDGE_ID, edgeId)
  }

  lemma InfoReadsBack(guid: nat, ndid: nat, waferId: nat, socketId: nat, edgeId: nat)
    ensures var word := InfoWord(guid, ndid, waferId, socketId, edgeId);
            && FieldOf(word, GUID) == guid % Pow2(24) && FieldOf(word, NDID) == ndid % Pow2(16)
            && FieldOf(word, WAFER_ID) == waferId % Pow2(8) && FieldOf(word, SOCKET_ID) == socketId % Pow2(4)
            && FieldOf(word, EDGE_ID) == edgeId % Pow2(2) && word[54..] == Word64(0)[54..]
  {
    forall f | IsInfoField(f)
      ensures FieldOf(Word64(0), f) == 0
    {
      GetOfZero(f);
    }
    var a := OrInto(Word64(0), GUID, guid);
    InfoPut(Word64(0), GUID, guid);
    var b := OrInto(a, NDID, ndid);
    InfoPut(a, NDID, ndid);
    var c := OrInto(b, WAFER_ID, waferId);
    InfoPut(b, WAFER_ID, waferId);
    var d := OrInto(c, SOCKET_ID, socketId);
    InfoPut(c, SOCKET_ID, socketId);
    InfoPut(d, EDGE_ID, edgeId);
  }

  /** The register word an Info is constructed as. */
  lemma InfoWordNumber(guid: nat, ndid: nat, waferId: nat, socketId: nat, edgeId: nat)
    ensures ToNat(InfoWord(guid, ndid, waferId, socketId, edgeId))
            == guid % 0x100_0000 + 0x100_0000 * (ndid % 0x1_0000) + 0x100_0000_0000 * (waferId % 0x100)
               + 0x1_0000_0000_0000 * (socketId % 0x10) + 0x10_0000_0000_0000 * (edgeId % 4)
  {
    InfoReadsBack(guid, ndid, waferId, socketId, edgeId);
    InfoNumber(InfoWord(guid, ndid, waferId, socketId, edgeId));
    HostPowers();
    ZeroTail(54);
  }

  lemma NdidBits(raw: Raw, value: nat)
    ensures |OrInto(raw, NDID, value)[24..40]| == |BitsOf(value, 16)| == 16
    ensures forall i :: 0 <= i < 16 ==> BitsOf(value, 16)[i] == Word64(value)[i]
    ensures forall i :: 0 <= i < 16 ==> OrInto(raw, NDID, value)[24..40][i] == (raw[24 + i] || Word64(value)[i])
  {
    BitsOfPrefix(value, 64, 16);
    forall i | 0 <= i < 16
      ensures BitsOf(value, 16)[i] == Word64(value)[i]
    {
      assert BitsOf(value, 64)[..16][i] == BitsOf(value, 64)[i];
    }
  }

  lemma NdidRead(raw: Raw, value: nat)
    ensures FieldOf(OrInto(raw, NDID, value), NDID) == value % TWO_16 <==>
            OrInto(raw, NDID, value)[24..40] == BitsOf(value, 16)
  {
    PowersOfTwo();
    ToNatOfBits(value, 16);
    GetIsSlice(OrInto(raw, NDID, value), NDID);
    var slice := OrInto(raw, NDID, value)[24..40];
    if ToNat(slice) == ToNat(BitsOf(value, 16)) {
      ToNatInjective(slice, BitsOf(value, 16));
    }
  }

  /** The node id set by `configure_fpga` reads back if and only if the register
      held no node-id bit that the new id lacks. */
  lemma NodeIdReadsBackIffSubset(raw: Raw, value: nat)
    ensures FieldOf(OrInto(raw, NDID, value), NDID) == value % TWO_16 <==>
            forall i :: 0 <= i < 16 && raw[24 + i] ==> Word64(value)[i]
  {
    NdidRead(raw, value);
    NdidBits(raw, value);
    var slice, wanted := OrInto(raw, NDID, value)[24..40], BitsOf(value, 16);
    assert slice == wanted <==> forall i :: 0 <= i < 16 ==> slice[i] == wanted[i];
  }

  // ---------------------------------------------- constructor of HostEndpoint

  function HostEndpointWord(nodeId: nat, protectionDomain: nat, vpid: nat, mode: nat): Raw {
    OrInto(OrInto(OrInto(OrInto(Word64(0), NODE_ID, nodeId), PROTECTION_DOMAIN, protectionDomain), VPID, vpid),
           MODE, mode)
  }

  /** The constructor, which ORs the fields into a zero word, gives the same word
      as the four setters. */
  lemma HostEndpointConstruction(nodeId: nat, protectionDomain: nat, vpid: nat, mode: nat)
    ensures HostEndpointWord(nodeId, protectionDomain, vpid, mode)
            == OverwriteAll(Word64(0), [Setter(NODE_ID, nodeId), Setter(PROTECTION_DOMAIN, protectionDomain),
                                        Setter(VPID, vpid), Setter(MODE, mode)])
  {
    var setters := [Setter(NODE_ID, nodeId), Setter(PROTECTION_DOMAIN, protectionDomain), Setter(VPID, vpid),
                    Setter(MODE, mode)];
    assert setters[..3] == [Setter(NODE_ID, nodeId), Setter(PROTECTION_DOMAIN, protectionDomain), Setter(VPID, vpid)];
    assert setters[..3][..2] == [Setter(NODE_ID, nodeId), Setter(PROTECTION_DOMAIN, protectionDomain)];
    assert setters[..3][..2][..1] == [Setter(NODE_ID, nodeId)];
    assert setters[..3][..2][..1][..0] == [];
    var a := OrStep(Word64(0), setters[..3][..2][..1][..0], NODE_ID, nodeId);
    var b := OrStep(a, setters[..3][..2][..1], PROTECTION_DOMAIN, protectionDomain);
    var c := OrStep(b, setters[..3][..2], VPID, vpid);
    var d := OrStep(c, setters[..3], MODE, mode);
  }

  /** One constructor line, on a field none of the earlier ones touched. */
  lemma OrStep(raw: Raw, earlier: seq<Setter>, f: Field, value: nat) returns (next: Raw)
    requires raw == OverwriteAll(Word64(0), earlier) && IsHostField(f)
    requires forall s :: s in earlier ==> IsHostField(s.field) && s.field != f
    ensures next == OrInto(raw, f, value) == OverwriteAll(Word64(0), earlier + [Setter(f, value)])
  {
    next := OrInto(raw, f, value);
    HostFieldsIndependent(Word64(0), earlier, f);
    NoSetter(earlier, f, FieldOf(Word64(0), f));
    GetOfZero(f);
    OrIntoEmptyField(raw, f, value);
    assert (earlier + [Setter(f, value)])[..|earlier|] == earlier;
  }

  lemma {:induction false} NoSetter(setters: seq<Setter>, f: Field, before: nat)
    requires forall s :: s in setters ==> s.field != f
    ensures LastValue(setters, f, before) == before
  {
    if setters != [] {
      NoSetter(setters[..|setters| - 1], f, before);
    }
  }

  lemma {:induction false} LastValueIs(setters: seq<Setter>, i: nat, before: nat)
    requires i < |setters|
    requires forall k :: i < k < |setters| ==> setters[k].field != setters[i].field
    ensures LastValue(setters, setters[i].field, before) == setters[i].value % Pow2(setters[i].field.width)
  {
    if i < |setters| - 1 {
      LastValueIs(setters[..|setters| - 1], i, before);
    }
  }

  lemma FieldSetTo(raw: Raw, setters: seq<Setter>, i: nat)
    requires forall s :: s in setters ==> IsHostField(s.field)
    requires i < |setters| && forall k :: i < k < |setters| ==> setters[k].field != setters[i].field
    ensures FieldOf(OverwriteAll(raw, setters), setters[i].field) == setters[i].value % Pow2(setters[i].field.width)
  {
    HostFieldsIndependent(raw, setters, setters[i].field);
    LastValueIs(setters, i, FieldOf(raw, setters[i].field));
  }

  /** The constructor keeps all four values, each cut to its width. */
  lemma HostEndpointReadsBack(nodeId: nat, protectionDomain: nat, vpid: nat, mode: nat)
    ensures var word := HostEndpointWord(nodeId, protectionDomain, vpid, mode);
            && FieldOf(word, NODE_ID) == nodeId % Pow2(16)
            && FieldOf(word, PROTECTION_DOMAIN) == protectionDomain % Pow2(16)
            && FieldOf(word, VPID) == vpid % Pow2(10)
            && FieldOf(word, MODE) == mode % Pow2(6)
  {
    var setters := [Setter(NODE_ID, nodeId), Setter(PROTECTION_DOMAIN, protectionDomain), Setter(VPID, vpid),
                    Setter(MODE, mode)];
    HostEndpointConstruction(nodeId, protectionDomain, vpid, mode);
    FieldSetTo(Word64(0), setters, 0);
    FieldSetTo(Word64(0), setters, 1);
    FieldSetTo(Word64(0), setters, 2);
    FieldSetTo(Word64(0), setters, 3);
  }

  lemma HostPowers()
    ensures Pow2(16) == 0x1_0000 && Pow2(10) == 0x400 && Pow2(6) == 0x40
    ensures Pow2(24) == 0x100_0000 && Pow2(8) == 0x100 && Pow2(4) == 0x10 && Pow2(2) == 4 && Pow2(32) == TWO_32
  {
    PowersOfTwo();
    assert Pow2(8) == 0x100 && Pow2(24) == 0x100 * Pow2(16);
  }

  /** The word as a number, field by field. */
  lemma HostWordNumber(raw: Raw)
    ensures ToNat(raw)
            == FieldOf(raw, Field(0, 16)) + 0x1_0000 * FieldOf(raw, Field(16, 16))
               + 0x1_0000_0000 * FieldOf(raw, Field(32, 10)) + 0x400_0000_0000 * FieldOf(raw, Field(42, 6))
               + 0x1_0000_0000_0000 * ToNat(raw[48..])
  {
    HostPowers();
    assert raw[0..] == raw;
    SplitField(raw, Field(0, 16));
    SplitField(raw, Field(16, 16));
    SplitField(raw, Field(32, 10));
    SplitField(raw, Field(42, 6));
  }

  /** The register word a HostEndpoint is written as. */
  lemma HostEndpointNumber(nodeId: nat, protectionDomain: nat, vpid: nat, mode: nat)
    ensures ToNat(HostEndpointWord(nodeId, protectionDomain, vpid, mode))
            == nodeId % 0x1_0000 + 0x1_0000 * (protectionDomain % 0x1_0000)
               + 0x1_0000_0000 * (vpid % 0x400) + 0x400_0000_0000 * (mode % 0x40)
  {
    var word := HostEndpointWord(nodeId, protectionDomain, vpid, mode);
    HostEndpointReadsBack(nodeId, protectionDomain, vpid, mode);
    HostWordNumber(word);
    HostPowers();
    HostEndpointTail(nodeId, protectionDomain, vpid, mode);
  }

  lemma HostEndpointTail(nodeId: nat, protectionDomain: nat, vpid: nat, mode: nat)
    ensures ToNat(HostEndpointWord(nodeId, protectionDomain, vpid, mode)[48..]) == 0
  {
    var setters := [Setter(NODE_ID, nodeId), Setter(PROTECTION_DOMAIN, protectionDomain), Setter(VPID, vpid),
                    Setter(MODE, mode)];
    HostEndpointConstruction(nodeId, protectionDomain, vpid, mode);
    HostFieldsIndependent(Word64(0), setters, NODE_ID);
    ZeroTail(48);
  }

  lemma ZeroTail(k: nat)
    requires k <= 64
    ensures ToNat(Word64(0)[k..]) == 0
  {
    ZeroBits(64);
    assert Word64(0)[k..] == [] + seq(64 - k, i => false);
    ToNatPadded([], 64 - k);
  }

  /** One field of the word is set and everything else is kept. */
  ghost predicate OnlySet(after: Raw, before: Raw, f: Field, value: nat) {
    && FieldOf(after, f) == value % Pow2(f.width)
    && (forall g :: IsHostField(g) && g != f ==> FieldOf(after, g) == FieldOf(before, g))
    && after[48..] == before[48..]
  }

  /** The overwriting setters do that, and no other word does. */
  lemma OverwriteOnlySets(before: Raw, f: Field, value: nat)
    requires IsHostField(f)
    ensures OnlySet(Overwrite(before, f, value), before, f, value)
    ensures forall after: Raw :: OnlySet(after, before, f, value) ==> after == Overwrite(before, f, value)
  {
    HostStep(before, f, value, f);
    forall g | IsHostField(g) && g != f
      ensures FieldOf(Overwrite(before, f, value), g) == FieldOf(before, g)
    {
      HostStep(before, f, value, g);
    }
    forall after: Raw | OnlySet(after, before, f, value)
      ensures after == Overwrite(before, f, value)
    {
      HostFieldsDetermineWord(after, Overwrite(before, f, value));
    }
  }

  // ------------------------------------------------- the registers as objects

  /** Read-write register HostEndpoint. */
  class HostEndpoint {
    var raw: Raw

    constructor (nodeId: nat, protectionDomain: nat, vpid: nat, mode: nat)
      ensures raw == OverwriteAll(Word64(0), [Setter(NODE_ID, nodeId), Setter(PROTECTION_DOMAIN, protectionDomain),
                                              Setter(VPID, vpid), Setter(MODE, mode)])
    {
      raw := Word64(0);
      new;
      raw := OrInto(raw, NODE_ID, nodeId);
      raw := OrInto(raw, PROTECTION_DOMAIN, protectionDomain);
      raw := OrInto(raw, VPID, vpid);
      raw := OrInto(raw, MODE, mode);
      HostEndpointConstruction(nodeId, protectionDomain, vpid, mode);
    }

    method SetNodeId(value: nat)
      modifies this
      ensures OnlySet(raw, old(raw), NODE_ID, value)
    {
      OverwriteOnlySets(raw, NODE_ID, value);
      raw := AndRaw(raw, NotRaw(Shl(Ones(16), 0)));
      raw := OrRaw(raw, Shl(AndRaw(Word64(value), Ones(16)), 0));
    }

    method SetProtectionDomain(value: nat)
      modifies this
      ensures OnlySet(raw, old(raw), PROTECTION_DOMAIN, value)
    {
      OverwriteOnlySets(raw, PROTECTION_DOMAIN, value);
      raw := AndRaw(raw, NotRaw(Shl(Ones(16), 16)));
      raw := OrRaw(raw, Shl(AndRaw(Word64(value), Ones(16)), 16));
    }

    method SetVpid(value: nat)
      modifies this
      ensures OnlySet(raw, old(raw), VPID, value)
    {
      OverwriteOnlySets(raw, VPID, value);
      raw := AndRaw(raw, NotRaw(Shl(Ones(10), 32)));
      raw := OrRaw(raw, Shl(AndRaw(Word64(value), Ones(10)), 32));
    }

    method SetMode(value: nat)
      modifies this
      ensures OnlySet(raw, old(raw), MODE, value)
    {
      OverwriteOnlySets(raw, MODE, value);
      raw := AndRaw(raw, NotRaw(Shl(Ones(6), 42)));
      raw := OrRaw(raw, Shl(AndRaw(Word64(value), Ones(6)), 42));
    }
  }

  /** Read-write registers HicannNotificationBehaviour and TraceNotificationBehaviour. */
  class NotificationRegister {
    var raw: Raw

    constructor (timeout: nat, frequency: nat)
      ensures raw == NotificationBehaviour(timeout, frequency)
    {
      raw := Word64(0);
      new;
      raw := OrRaw(raw, Place(TIMEOUT, timeout));
      raw := OrRaw(raw, Place(FREQUENCY, frequency));
    }

    method SetTimeout(value: nat)
      modifies this
      ensures raw == Assign(TIMEOUT, value)
    {
      raw := Place(TIMEOUT, value);
    }

    method SetFrequency(value: nat)
      modifies this
      ensures raw == Assign(FREQUENCY, value)
    {
      raw := Place(FREQUENCY, value);
    }
  }

  /** Read-write register Info. */
  class Info {
    var raw: Raw

    constructor (raw: Raw)
      ensures this.raw == raw
    {
      this.raw := raw;
    }

    constructor WithFields(guid: nat, ndid: nat, waferId: nat, socketId: nat, edgeId: nat)
      ensures raw == InfoWord(guid, ndid, waferId, socketId, edgeId)
    {
      raw := Word64(0);
      new;
      SetGuid(guid);
      SetNdid(ndid);
      SetWaferId(waferId);
      SetSocketId(socketId);
      SetEdgeId(edgeId);
    }

    method SetGuid(value: nat)
      modifies this
      ensures raw == OrInto(old(raw), GUID, value)
    {
      raw := OrRaw(raw, Shl(AndRaw(Word64(value), Ones(24)), 0));
    }

    method SetNdid(value: nat)
      modifies this
      ensures raw == OrInto(old(raw), NDID, value)
    {
      raw := OrRaw(raw, Shl(AndRaw(Word64(value), Ones(16)), 24));
    }

    method SetWaferId(value: nat)
      modifies this
      ensures raw == OrInto(old(raw), WAFER_ID, value)
    {
      raw := OrRaw(raw, Shl(AndRaw(Word64(value), Ones(8)), 40));
    }

    method SetSocketId(value: nat)
      modifies this
      ensures raw == OrInto(old(raw), SOCKET_ID, value)
    {
      raw := OrRaw(raw, Shl(AndRaw(Word64(value), Ones(4)), 48));
    }

    method SetEdgeId(value: nat)
      modifies this
      ensures raw == OrInto(old(raw), EDGE_ID, value)
    {
      raw := OrRaw(raw, Shl(AndRaw(Word64(value), Ones(2)), 52));
    }
  }
}
