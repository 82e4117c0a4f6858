/** H.265 slice headers: reading and patching the reference frame (lib/src/bitstream.c). */
module SliceSpec {
  import opened Common
  import opened BitSpec
  import opened RbspSpec

  datatype SliceType = Unknown | I | P

  /**
   Nothing in the bytes loaded to read up to `reach` can be taken for an emulation prevention
   byte, and nothing behind the header for the end of the NAL unit.
   */
  ghost predicate Ordinary(bytes: seq<byte>, reach: Read<nat>) {
    && Plain(Bits(bytes), Loaded(reach, |bytes|))
    && (Opening(Bits(bytes)).Got? ==> !StartAhead(bytes, Opening(Bits(bytes)).value.next))
  }

  /** The reference frame is only set for trailing pictures. */
  datatype Slice = Slice(sliceType: SliceType, referenceFrame: Option<nat>)

  const NO_REFERENCE := 0xff
  const NEGATIVE_PICS_MAX := 16
  const LOG2_MAX := 12

  /** The type of the NAL unit and where its payload begins. */
  function NalHeader(bits: seq<bool>, pos: nat): Read<Field> {
    if pos + 16 <= |bits| then Got(Field(ToNat(bits[pos + 1..pos + 7]), pos + 16)) else Stopped
  }

  function Opening(bits: seq<bool>): Read<Field> {
    var start :- FirstStart(bits, 0);
    NalHeader(bits, 8 * start + 32)
  }

  /** The slice type's code and the position after it. */
  function SliceStart(bits: seq<bool>, pos: nat, nalType: nat): Read<Field> {
    var first :- U(bits, pos, 1);
    var second :- if nalType == 20 then U(bits, first.next, 1) else Got(first);
    var pps :- Ue(bits, second.next);
    var address :- if first.value == 0 then Ue(bits, pps.next) else Got(pps);
    Ue(bits, address.next)
  }

  /** How many negative pictures the slice header itself lists, and where the list begins. */
  function RefPicSet(bits: seq<bool>, pos: nat, log2: nat): Read<Field> {
    var poc :- U(bits, pos, log2 + 4);
    var inSps :- U(bits, poc.next, 1);
    if inSps.value != 0 then Got(Field(0, inSps.next))
    else
      var n :- Ue(bits, inSps.next);
      if n.value > NEGATIVE_PICS_MAX then Stopped
      else
        var positive :- Ue(bits, n.next);
        Got(Field(n.value, positive.next))
  }

  /** The first of the pictures `i`, ..., `n - 1` that is used. */
  function FirstUsed(bits: seq<bool>, pos: nat, i: nat, n: nat): Read<Field>
    requires i <= n
    decreases n - i
  {
    if i == n then Got(Field(NO_REFERENCE, pos))
    else
      var delta :- Ue(bits, pos);
      var used :- U(bits, delta.next, 1);
      if used.value != 0 then Got(Field(i, used.next)) else FirstUsed(bits, used.next, i + 1, n)
  }

  function TypeOf(code: nat): SliceType {
    if code == 1 then P else if code == 2 then I else Unknown
  }

  /** What the parser says of a slice, and where it stops reading. */
  datatype Header = Header(slice: Slice, end: nat)

  function ParseHeader(bits: seq<bool>, log2: nat): Read<Header> {
    var nal :- Opening(bits);
    if nal.value != 1 && nal.value != 20 then Stopped
    else
      var code :- SliceStart(bits, nal.next, nal.value);
      if nal.value == 1 then
        var list :- RefPicSet(bits, code.next, log2);
        var used :- FirstUsed(bits, list.next, 0, list.value);
        Got(Header(Slice(TypeOf(code.value), Some(used.value)), used.next))
      else
        Got(Header(Slice(TypeOf(code.value), None), code.next))
  }

  function ParseSlice(bits: seq<bool>, log2: nat): Read<Slice> {
    var header :- ParseHeader(bits, log2);
    Got(header.slice)
  }

  function HeaderReach(bits: seq<bool>, log2: nat): Read<nat> {
    var header :- ParseHeader(bits, log2);
    Got(header.end)
  }

  /** Whether the picture was found, the bits as they are left, and where reading stops. */
  datatype Patch = Patch(found: bool, bits: seq<bool>, end: nat)

  /** Reads `bits` and clears the flags of the pictures before `r`, and sets the flag of `r`, in `now`. */
  function PatchFlags(bits: seq<bool>, now: seq<bool>, pos: nat, i: nat, n: nat, r: nat): Read<Patch>
    requires i <= n && |now| == |bits|
    decreases n - i
  {
    if i == n then Got(Patch(false, now, pos))
    else
      var delta :- Ue(bits, pos);
      if delta.next >= |bits| then Stopped
      else
        var next := now[delta.next := i == r];
        if i == r then Got(Patch(true, next, delta.next)) else PatchFlags(bits, next, delta.next + 1, i + 1, n, r)
  }

  /** The list of a P slice: its length and where it begins. */
  function ListOf(bits: seq<bool>, log2: nat): Read<Field> {
    var nal :- Opening(bits);
    if nal.value != 1 then Stopped
    else
      var code :- SliceStart(bits, nal.next, 1);
      if code.value != 1 then Stopped else RefPicSet(bits, code.next, log2)
  }

  function SetReference(bits: seq<bool>, log2: nat, r: nat): Read<Patch> {
    var list :- ListOf(bits, log2);
    PatchFlags(bits, bits, list.next, 0, list.value, r)
  }

  function PatchReach(patch: Read<Patch>): Read<nat> {
    match patch
    case Stopped => Stopped
    case Got(p) => Got(p.end)
  }

  /** Where the flag of picture `i` is, if the list begins at `pos`. */
  function FlagAt(bits: seq<bool>, pos: nat, i: nat): (flag: Read<nat>)
    ensures flag.Got? ==> flag.value < |bits|
    decreases i
  {
    var delta :- Ue(bits, pos);
    if delta.next >= |bits| then Stopped
    else if i == 0 then Got(delta.next)
    else FlagAt(bits, delta.next + 1, i - 1)
  }

  predicate SamePrefix(a: seq<bool>, b: seq<bool>, n: nat) {
    |a| == |b| && n <= |a| && a[..n] == b[..n]
  }

  lemma SameWithin(a: seq<bool>, b: seq<bool>, n: nat, from: nat, to: nat)
    requires SamePrefix(a, b, n) && from <= to <= n
    ensures a[from..to] == b[from..to]
  {
    PrefixSlice(a, b, n, from, to);
  }

  lemma UeNext(bits: seq<bool>, pos: nat)
    ensures Ue(bits, pos).Got? ==> pos < Ue(bits, pos).value.next <= |bits|
  {
  }

  lemma USame(a: seq<bool>, b: seq<bool>, n: nat, pos: nat, width: nat)
    requires SamePrefix(a, b, n) && U(a, pos, width).Got? && pos + width <= n
    ensures U(b, pos, width) == U(a, pos, width)
  {
    SameWithin(a, b, n, pos, pos + width);
  }

  lemma UeSame(a: seq<bool>, b: seq<bool>, n: nat, pos: nat)
    requires SamePrefix(a, b, n) && Ue(a, pos).Got? && Ue(a, pos).value.next <= n
    ensures Ue(b, pos) == Ue(a, pos)
  {
    hide Ue;
    UeNext(a, pos);
    SameWithin(a, b, n, pos, Ue(a, pos).value.next);
    UeLocal(a, b, pos);
  }

  lemma OpeningSame(a: seq<bool>, b: seq<bool>, n: nat)
    requires SamePrefix(a, b, n) && Opening(a).Got? && Opening(a).value.next <= n
    ensures Opening(b) == Opening(a)
  {
    hide ToNat;
    var start := FirstStart(a, 0).value;
    forall j: nat | j <= start ensures StartAt(a, j) == StartAt(b, j) {
      SameWithin(a, b, n, 8 * j, 8 * j + 32);
    }
    assert FirstStart(b, 0) == Got(start);
    SameWithin(a, b, n, 8 * start + 33, 8 * start + 39);
  }

  /** The codes of a slice header before the slice type, in order. */
  lemma SliceStartWithin(bits: seq<bool>, pos: nat, nalType: nat)
    requires SliceStart(bits, pos, nalType).Got?
    ensures pos < SliceStart(bits, pos, nalType).value.next <= |bits|
    ensures var first := U(bits, pos, 1).value;
            var second := if nalType == 20 then U(bits, first.next, 1).value else first;
            var pps := Ue(bits, second.next).value;
            && pos < first.next <= second.next < pps.next < SliceStart(bits, pos, nalType).value.next
            && (first.value == 0 ==> pps.next < Ue(bits, pps.next).value.next
                                             < SliceStart(bits, pos, nalType).value.next)
  {
    hide Ue, ToNat;
    var first := U(bits, pos, 1).value;
    var second := if nalType == 20 then U(bits, first.next, 1).value else first;
    UeNext(bits, second.next);
    var pps := Ue(bits, second.next).value;
    UeNext(bits, pps.next);
    if first.value == 0 {
      UeNext(bits, Ue(bits, pps.next).value.next);
    }
  }

  lemma RefPicSetWithin(bits: seq<bool>, pos: nat, log2: nat)
    requires RefPicSet(bits, pos, log2).Got?
    ensures pos < RefPicSet(bits, pos, log2).value.next <= |bits|
    ensures var inSps := U(bits, pos + log2 + 4, 1).value;
            && pos + log2 + 5 == inSps.next <= RefPicSet(bits, pos, log2).value.next
            && (inSps.value == 0 ==>
                  inSps.next < Ue(bits, inSps.next).value.next < RefPicSet(bits, pos, log2).value.next)
  {
    hide Ue, ToNat;
    var inSps := U(bits, pos + log2 + 4, 1).value;
    if inSps.value == 0 {
      UeNext(bits, inSps.next);
      UeNext(bits, Ue(bits, inSps.next).value.next);
    }
  }

  lemma SliceStartSame(a: seq<bool>, b: seq<bool>, n: nat, pos: nat)
    requires SamePrefix(a, b, n) && SliceStart(a, pos, 1).Got? && SliceStart(a, pos, 1).value.next <= n
    ensures SliceStart(b, pos, 1) == SliceStart(a, pos, 1)
  {
    hide Ue, ToNat, SamePrefix;
    var first := U(a, pos, 1).value;
    var pps := Ue(a, first.next).value;
    UeNext(a, first.next);
    if first.value == 0 {
      UeNext(a, pps.next);
      UeNext(a, Ue(a, pps.next).value.next);
      UeSame(a, b, n, pps.next);
      UeSame(a, b, n, Ue(a, pps.next).value.next);
    } else {
      UeNext(a, pps.next);
      UeSame(a, b, n, pps.next);
    }
    USame(a, b, n, pos, 1);
    UeSame(a, b, n, first.next);
  }

  lemma RefPicSetSame(a: seq<bool>, b: seq<bool>, n: nat, pos: nat, log2: nat)
    requires SamePrefix(a, b, n) && RefPicSet(a, pos, log2).Got? && RefPicSet(a, pos, log2).value.next <= n
    ensures RefPicSet(b, pos, log2) == RefPicSet(a, pos, log2)
  {
    hide Ue, ToNat, SamePrefix;
    var poc := U(a, pos, log2 + 4).value;
    var inSps := U(a, poc.next, 1).value;
    if inSps.value == 0 {
      UeNext(a, inSps.next);
      UeNext(a, Ue(a, inSps.next).value.next);
      UeSame(a, b, n, inSps.next);
      UeSame(a, b, n, Ue(a, inSps.next).value.next);
    }
    USame(a, b, n, pos, log2 + 4);
    USame(a, b, n, poc.next, 1);
  }

  /** Patching changes nothing before the list. */
  lemma {:induction false} PatchesAfter(bits: seq<bool>, now: seq<bool>, pos: nat, i: nat, n: nat, r: nat)
    requires i <= n && |now| == |bits| && pos <= |bits| && PatchFlags(bits, now, pos, i, n, r).Got?
    ensures SamePrefix(now, PatchFlags(bits, now, pos, i, n, r).value.bits, pos)
    decreases n - i
  {
    hide Ue;
    if i < n {
      UeNext(bits, pos);
      var flag := Ue(bits, pos).value.next;
      var next := now[flag := i == r];
      if i != r {
        PatchesAfter(bits, next, flag + 1, i + 1, n, r);
        SameWithin(next, PatchFlags(bits, next, flag + 1, i + 1, n, r).value.bits, flag + 1, 0, pos);
      }
      assert next[..pos] == now[..pos];
    }
  }

  /** Only the flags of the pictures up to `r` change: cleared, and set for `r` itself. */
  lemma {:induction false} PatchedExactly(bits: seq<bool>, now: seq<bool>, pos: nat, i: nat, n: nat, r: nat, q: nat)
    requires i <= n && i <= r && |now| == |bits| && pos <= |bits| && q < |bits|
    requires PatchFlags(bits, now, pos, i, n, r).Got?
    ensures var after := PatchFlags(bits, now, pos, i, n, r).value.bits;
            && |after| == |bits|
            && (after[q] != now[q] ==> exists j: nat :: i + j < n && i + j <= r && FlagAt(bits, pos, j) == Got(q))
            && (forall j: nat :: i + j < n && i + j <= r && FlagAt(bits, pos, j) == Got(q) ==> after[q] == (i + j == r))
    decreases n - i
  {
    hide Ue;
    if i < n {
      UeNext(bits, pos);
      var flag := Ue(bits, pos).value.next;
      var next := now[flag := i == r];
      var after := PatchFlags(bits, now, pos, i, n, r).value.bits;
      assert FlagAt(bits, pos, 0) == Got(flag);
      if i != r {
        PatchedExactly(bits, next, flag + 1, i + 1, n, r, q);
        PatchesAfter(bits, next, flag + 1, i + 1, n, r);
        assert after[flag] == after[..flag + 1][flag] == next[..flag + 1][flag] == next[flag];
        forall j: nat | i + j < n && i + j <= r && FlagAt(bits, pos, j) == Got(q)
          ensures after[q] == (i + j == r)
        {
          if j > 0 {
            assert FlagAt(bits, flag + 1, j - 1) == Got(q);
          }
        }
        if after[q] != now[q] && q != flag {
          var j: nat :| i + 1 + j < n && i + 1 + j <= r && FlagAt(bits, flag + 1, j) == Got(q);
          assert FlagAt(bits, pos, j + 1) == Got(q);
        }
      } else {
        forall j: nat | i + j < n && i + j <= r && FlagAt(bits, pos, j) == Got(q) ensures after[q] == (i + j == r) {
          assert j == 0;
        }
      }
    }
  }

  /** What is read back from the patched list. */
  lemma {:induction false} PatchThenUsed(bits: seq<bool>, now: seq<bool>, pos: nat, i: nat, n: nat, r: nat)
    requires i <= n && |now| == |bits| && pos <= |bits| && now[pos..] == bits[pos..] && i <= r
    requires PatchFlags(bits, now, pos, i, n, r).Got? && PatchFlags(bits, now, pos, i, n, r).value.found
    ensures var used := FirstUsed(PatchFlags(bits, now, pos, i, n, r).value.bits, pos, i, n);
            used.Got? && used.value.value == r
    decreases n - i
  {
    hide Ue, ToNat;
    UeNext(bits, pos);
    var flag := Ue(bits, pos).value.next;
    var next := now[flag := i == r];
    var after := PatchFlags(bits, now, pos, i, n, r).value.bits;
    if i != r {
      PatchesAfter(bits, next, flag + 1, i + 1, n, r);
      SuffixSlice(now, bits, pos, flag + 1, |bits|);
      SameSlice(next, now, flag + 1, |bits|);
      assert next[flag + 1..] == next[flag + 1..|bits|] && bits[flag + 1..] == bits[flag + 1..|bits|];
      PatchThenUsed(bits, next, flag + 1, i + 1, n, r);
    }
    assert after[..flag + 1] == next[..flag + 1];
    FlagBit(after, flag);
    assert after[flag] == after[..flag + 1][flag] == (i == r);
    PrefixSlice(after, next, flag + 1, pos, flag);
    SameSlice(next, now, pos, flag);
    SuffixSlice(now, bits, pos, pos, flag);
    UeLocal(bits, after, pos);
  }

  lemma FlagBit(bits: seq<bool>, flag: nat)
    requires flag < |bits|
    ensures U(bits, flag, 1) == Got(Field(if bits[flag] then 1 else 0, flag + 1))
  {
    assert bits[flag..flag + 1] == [bits[flag]] && [bits[flag]][..0] == [];
    assert ToNat([]) == 0;
  }

  /** The flag of picture `j` is there and set. */
  predicate FlagSet(bits: seq<bool>, pos: nat, j: nat) {
    FlagAt(bits, pos, j).Got? && bits[FlagAt(bits, pos, j).value]
  }

  lemma {:induction false} FirstUsedIff(bits: seq<bool>, pos: nat, i: nat, n: nat)
    requires i <= n < 0xff && FirstUsed(bits, pos, i, n).Got?
    ensures var r := FirstUsed(bits, pos, i, n).value.value;
            if r == 0xff then forall j: nat :: i + j < n ==> !FlagSet(bits, pos, j)
            else i <= r < n && FlagSet(bits, pos, r - i) && forall j: nat :: i + j < r ==> !FlagSet(bits, pos, j)
    decreases n - i
  {
    hide Ue;
    if i < n {
      UeNext(bits, pos);
      var flag := Ue(bits, pos).value.next;
      assert flag < |bits|;
      FlagBit(bits, flag);
      assert FlagAt(bits, pos, 0) == Got(flag);
      if !bits[flag] {
        FirstUsedIff(bits, flag + 1, i + 1, n);
        var r := FirstUsed(bits, pos, i, n).value.value;
        forall j: nat | i + j < n && (r == 0xff || i + j < r) ensures !FlagSet(bits, pos, j) {
          assert j > 0 ==> FlagAt(bits, pos, j) == FlagAt(bits, flag + 1, j - 1);
          assert j > 0 ==> i + 1 + (j - 1) < n && !FlagSet(bits, flag + 1, j - 1);
        }
        if r != 0xff {
          assert FlagAt(bits, pos, r - i) == FlagAt(bits, flag + 1, r - i - 1);
        }
      }
    }
  }

  /**
   What the parser says of a slice that it can read: the type by its code, and of a trailing
   picture, the first picture listed in the header whose flag is set, or 255 if none is.
   */
  lemma ParsedMeans(bits: seq<bool>, log2: nat)
    requires ParseHeader(bits, log2).Got?
    ensures var slice, nal := ParseHeader(bits, log2).value.slice, Opening(bits).value;
            var code := SliceStart(bits, nal.next, nal.value).value;
            && (slice.sliceType.P? <==> code.value == 1) && (slice.sliceType.I? <==> code.value == 2)
            && (slice.referenceFrame.Some? <==> nal.value == 1)
            && (nal.value == 1 ==>
                  var list := RefPicSet(bits, code.next, log2).value;
                  && (slice.referenceFrame == Some(0xff) <==>
                        forall j: nat :: j < list.value ==> !FlagSet(bits, list.next, j))
                  && (forall r: nat :: r < list.value ==>
                        (slice.referenceFrame == Some(r) <==>
                           FlagSet(bits, list.next, r) && forall j: nat :: j < r ==> !FlagSet(bits, list.next, j))))
  {
    hide Ue, ToNat, Opening, SliceStart, FirstUsed, FlagSet;
    var nal := Opening(bits).value;
    if nal.value == 1 {
      var code := SliceStart(bits, nal.next, 1).value;
      var list := RefPicSet(bits, code.next, log2).value;
      assert list.value <= 16;
      FirstUsedIff(bits, list.next, 0, list.value);
      var r := FirstUsed(bits, list.next, 0, list.value).value.value;
      forall j: nat ensures j < list.value && r == 0xff ==> !FlagSet(bits, list.next, j)
        ensures j < r && r != 0xff ==> !FlagSet(bits, list.next, j)
      {
        assert 0 + j == j;
      }
    }
  }

  /**
   A successful patch is seen by the parser: the slice is a P slice with the reference frame
   that was asked for.
   */
  lemma PatchIsSeen(bits: seq<bool>, log2: nat, r: nat)
    requires SetReference(bits, log2, r).Got? && SetReference(bits, log2, r).value.found
    ensures ParseSlice(SetReference(bits, log2, r).value.bits, log2) == Got(Slice(P, Some(r)))
  {
    hide Ue, ToNat, Opening, SliceStart, RefPicSet, PatchFlags, FirstUsed, U;
    var nal := Opening(bits).value;
    var code := SliceStart(bits, nal.next, 1).value;
    var list := ListOf(bits, log2).value;
    var after := SetReference(bits, log2, r).value.bits;
    SliceStartWithin(bits, nal.next, 1);
    RefPicSetWithin(bits, code.next, log2);
    PatchesAfter(bits, bits, list.next, 0, list.value, r);
    OpeningSame(bits, after, list.next);
    SliceStartSame(bits, after, list.next, nal.next);
    RefPicSetSame(bits, after, list.next, code.next, log2);
    PatchThenUsed(bits, bits, list.next, 0, list.value, r);
  }

  /** The patch succeeds exactly for the pictures in the list, and changes nothing but their flags. */
  lemma PatchTouchesOnlyFlags(bits: seq<bool>, log2: nat, r: nat, q: nat)
    requires SetReference(bits, log2, r).Got? && q < |bits|
    ensures var list, patch := ListOf(bits, log2).value, SetReference(bits, log2, r).value;
            && (patch.found <==> r < list.value)
            && |patch.bits| == |bits|
            && (patch.bits[q] != bits[q] ==>
                  exists j: nat :: j < list.value && j <= r && FlagAt(bits, list.next, j) == Got(q))
            && (forall j: nat :: j < list.value && j <= r && FlagAt(bits, list.next, j) == Got(q) ==>
                  patch.bits[q] == (j == r))
  {
    hide Ue, ToNat, Opening, SliceStart, RefPicSet, PatchFlags, FlagAt;
    var nal := Opening(bits).value;
    var code := SliceStart(bits, nal.next, 1).value;
    var list := ListOf(bits, log2).value;
    RefPicSetWithin(bits, code.next, log2);
    FoundIfListed(bits, bits, list.next, 0, list.value, r);
    PatchedExactly(bits, bits, list.next, 0, list.value, r, q);
    var after := SetReference(bits, log2, r).value.bits;
    if after[q] != bits[q] {
      var j: nat :| 0 + j < list.value && 0 + j <= r && FlagAt(bits, list.next, j) == Got(q);
      assert j < list.value && j <= r;
    }
    forall j: nat | j < list.value && j <= r && FlagAt(bits, list.next, j) == Got(q) ensures after[q] == (j == r) {
      assert 0 + j < list.value && 0 + j <= r;
    }
  }

  lemma {:induction false} FirstUsedWithin(bits: seq<bool>, pos: nat, i: nat, n: nat)
    requires i <= n
    ensures FirstUsed(bits, pos, i, n).Got? ==> pos <= FirstUsed(bits, pos, i, n).value.next
    ensures FirstUsed(bits, pos, i, n).Got? && i < n ==>
              && Ue(bits, pos).Got?
              && Ue(bits, pos).value.next + 1 <= FirstUsed(bits, pos, i, n).value.next
    decreases n - i
  {
    hide Ue, ToNat;
    if i < n && FirstUsed(bits, pos, i, n).Got? {
      UeNext(bits, pos);
      FirstUsedWithin(bits, Ue(bits, pos).value.next + 1, i + 1, n);
    }
  }

  /** Where the parser is after each part of a slice header. */
  lemma HeaderWithin(bits: seq<bool>, log2: nat)
    requires ParseHeader(bits, log2).Got?
    ensures var nal, end := Opening(bits).value, ParseHeader(bits, log2).value.end;
            var code := SliceStart(bits, nal.next, nal.value).value;
            && nal.next <= code.next <= end
            && (nal.value == 1 ==> RefPicSet(bits, code.next, log2).value.next <= end)
  {
    hide Ue, ToNat, Opening, SliceStart, RefPicSet, FirstUsed;
    var nal := Opening(bits).value;
    SliceStartWithin(bits, nal.next, nal.value);
    var code := SliceStart(bits, nal.next, nal.value).value;
    if nal.value == 1 {
      RefPicSetWithin(bits, code.next, log2);
      var list := RefPicSet(bits, code.next, log2).value;
      FirstUsedWithin(bits, list.next, 0, list.value);
    }
  }

  lemma {:induction false} PatchFlagsWithin(bits: seq<bool>, now: seq<bool>, pos: nat, i: nat, n: nat, r: nat)
    requires i <= n && |now| == |bits|
    ensures var patch := PatchFlags(bits, now, pos, i, n, r);
            && (patch.Got? ==> pos <= patch.value.end)
            && (patch.Got? && i < n ==> Ue(bits, pos).Got? && Ue(bits, pos).value.next <= patch.value.end)
            && (patch.Got? && i < n && i != r ==> Ue(bits, pos).value.next + 1 <= patch.value.end)
    decreases n - i
  {
    hide Ue;
    if i < n && PatchFlags(bits, now, pos, i, n, r).Got? {
      UeNext(bits, pos);
      var flag := Ue(bits, pos).value.next;
      if i != r {
        PatchFlagsWithin(bits, now[flag := false], flag + 1, i + 1, n, r);
      }
    }
  }

  lemma PatchWithin(bits: seq<bool>, log2: nat, r: nat)
    ensures SetReference(bits, log2, r).Got? ==>
              var nal, end := Opening(bits).value, SetReference(bits, log2, r).value.end;
              var code := SliceStart(bits, nal.next, 1).value;
              && nal.next <= code.next <= RefPicSet(bits, code.next, log2).value.next <= end
  {
    hide Ue, ToNat, Opening, SliceStart, RefPicSet, PatchFlags;
    if SetReference(bits, log2, r).Got? {
      var nal := Opening(bits).value;
      SliceStartWithin(bits, nal.next, 1);
      var code := SliceStart(bits, nal.next, 1).value;
      RefPicSetWithin(bits, code.next, log2);
      var list := RefPicSet(bits, code.next, log2).value;
      PatchFlagsWithin(bits, bits, list.next, 0, list.value, r);
    }
  }

  /** A list that is not empty begins at least this far in. */
  const LIST_MIN := 62

  /** A code for anything but zero has at least three bits. */
  lemma UeLength(bits: seq<bool>, pos: nat)
    ensures Ue(bits, pos).Got? && Ue(bits, pos).value.value > 0 ==> Ue(bits, pos).value.next >= pos + 3
  {
    if Ue(bits, pos).Got? {
      var one := FirstOne(bits, pos).value;
      if one == pos {
        assert bits[one + 1..one + 1] == [];
        assert ToNat([]) == 0;
      }
    }
  }

  lemma ListIsFarIn(bits: seq<bool>, log2: nat)
    requires ListOf(bits, log2).Got? && ListOf(bits, log2).value.value > 0
    ensures ListOf(bits, log2).value.next >= LIST_MIN
  {
    hide Ue, ToNat;
    var nal := Opening(bits).value;
    var code := SliceStart(bits, nal.next, 1).value;
    SliceStartWithin(bits, nal.next, 1);
    RefPicSetWithin(bits, code.next, log2);
    var pps := Ue(bits, nal.next + 1).value;
    UeLength(bits, if U(bits, nal.next, 1).value.value == 0 then Ue(bits, pps.next).value.next else pps.next);
    var inSps := U(bits, code.next + log2 + 4, 1).value;
    UeLength(bits, inSps.next);
    UeNext(bits, Ue(bits, inSps.next).value.next);
  }

  lemma {:induction false} FoundIfListed(bits: seq<bool>, now: seq<bool>, pos: nat, i: nat, n: nat, r: nat)
    requires i <= n && |now| == |bits| && PatchFlags(bits, now, pos, i, n, r).Got?
    ensures PatchFlags(bits, now, pos, i, n, r).value.found <==> i <= r < n
    decreases n - i
  {
    hide Ue;
    if i < n && i != r {
      var flag := Ue(bits, pos).value.next;
      FoundIfListed(bits, now[flag := false], flag + 1, i + 1, n, r);
    }
  }
}

module Bitstream {
  import opened Common
  import opened BitSpec
  import opened BitReader
  import opened RbspSpec
  import opened SliceSpec
  import Rbsp

  /** Lines 238-241: the 16 bits of the NAL unit's header. */
  method ReadNalHeader(vlc: Vlc) returns (nalType: Read<nat>)
    requires vlc.Valid() && (vlc.ValidBits() >= 32 || vlc.data == vlc.input.Length)
    modifies vlc`buffer, vlc`invalidBits
    ensures vlc.Valid()
    ensures var header := NalHeader(vlc.bits, old(vlc.Pos()));
            (nalType.Got? <==> header.Got?)
            && (nalType.Got? ==> nalType.value == header.value.value && vlc.Pos() == header.value.next)
  {
    hide ToNat, Vlc.Valid;
    var forbidden := vlc.EatBits(1);
    if !forbidden {
      return Stopped;
    }
    nalType := vlc.GetUimsbf(6);
    if nalType.Stopped? {
      return;
    }
    var layer := vlc.EatBits(6);
    if !layer {
      return Stopped;
    }
    var temporal := vlc.EatBits(3);
    if !temporal {
      return Stopped;
    }
  }

  /** Lines 232-250: a reader behind the NAL unit's header. */
  method OpenSlice(input: array<byte>, address: nat) returns (rbsp: Rbsp.Reader?, nalType: nat)
    ensures rbsp != null <==> Opening(Bits(input[..])).Got?
    ensures rbsp != null ==>
              && fresh(rbsp) && fresh(rbsp.nal) && rbsp.Valid() && rbsp.nal.input == input
              && rbsp.nal.bits == Bits(input[..])
              && Opening(Bits(input[..])).value == Field(nalType, rbsp.nal.Pos())
    ensures rbsp != null && rbsp.special ==>
              || StartAhead(input[..], rbsp.nal.Pos())
              || Excused(rbsp.nal.bits, rbsp.nal.data, Got(rbsp.nal.Pos()))
  {
    hide ToNat, Vlc.Valid, FirstStart, NalHeader, Excused, StartAhead;
    rbsp, nalType := null, 0;
    var vlc := new Vlc(input, address);
    var found := Rbsp.SkipStartcode(vlc);
    if !found {
      return;
    }
    ghost var start := FirstStart(vlc.bits, 0).value;
    var header := ReadNalHeader(vlc);
    if header.Stopped? {
      return;
    }
    nalType := header.value;
    HeaderEnds(vlc.bits, start);
    rbsp := new Rbsp.Reader(vlc);
  }

  lemma HeaderEnds(bits: seq<bool>, start: nat)
    ensures var header := NalHeader(bits, 8 * start + 32);
            header.Got? ==> header.value.next % 8 == 0
  {
  }

  /** Lines 251-259. */
  method ReadSliceStart(rbsp: Rbsp.Reader, nalType: nat) returns (r: Read<nat>)
    requires rbsp.Valid() && !rbsp.special
    modifies rbsp, rbsp.nal`buffer, rbsp.nal`invalidBits, rbsp.nal`data
    ensures rbsp.Valid()
    ensures var code := SliceStart(rbsp.nal.bits, old(rbsp.nal.Pos()), nalType);
            && (rbsp.special ==> r.Stopped? && Excused(rbsp.nal.bits, rbsp.nal.data, Reach(code)))
            && (!rbsp.special ==> Rbsp.Reads(r, code, rbsp.nal.Pos()))
  {
    hide ToNat, Ue, Vlc.Valid, Plain;
    ghost var bits, start := rbsp.nal.bits, rbsp.nal.Pos();
    if SliceStart(bits, start, nalType).Got? {
      SliceStartWithin(bits, start, nalType);
    }
    var first :- rbsp.U(1);
    if nalType == 20 {
      var _ :- rbsp.U(1);
    }
    var _ :- rbsp.Ue();
    if first == 0 {
      var _ :- rbsp.Ue();
    }
    r := rbsp.Ue();
  }

  /** Lines 275-284. */
  method ReadRefPicSet(rbsp: Rbsp.Reader, log2: nat) returns (r: Read<nat>)
    requires rbsp.Valid() && !rbsp.special && log2 <= LOG2_MAX
    modifies rbsp, rbsp.nal`buffer, rbsp.nal`invalidBits, rbsp.nal`data
    ensures rbsp.Valid()
    ensures var list := RefPicSet(rbsp.nal.bits, old(rbsp.nal.Pos()), log2);
            && (rbsp.special ==> r.Stopped? && Excused(rbsp.nal.bits, rbsp.nal.data, Reach(list)))
            && (!rbsp.special ==> Rbsp.Reads(r, list, rbsp.nal.Pos()))
  {
    hide ToNat, Ue, Vlc.Valid, Plain;
    ghost var bits, start := rbsp.nal.bits, rbsp.nal.Pos();
    if RefPicSet(bits, start, log2).Got? {
      RefPicSetWithin(bits, start, log2);
    }
    var _ :- rbsp.U(log2 + 4);
    var inSps :- rbsp.U(1);
    if inSps != 0 {
      return Got(0);
    }
    var n :- rbsp.Ue();
    if n > NEGATIVE_PICS_MAX {
      return Stopped;
    }
    var _ :- rbsp.Ue();
    r := Got(n);
  }

  /** Lines 285-293. */
  method ReadFirstUsed(rbsp: Rbsp.Reader, n: nat) returns (r: Read<nat>)
    requires rbsp.Valid() && !rbsp.special
    modifies rbsp, rbsp.nal`buffer, rbsp.nal`invalidBits, rbsp.nal`data
    ensures rbsp.Valid()
    ensures var used := FirstUsed(rbsp.nal.bits, old(rbsp.nal.Pos()), 0, n);
            && (rbsp.special ==> r.Stopped? && Excused(rbsp.nal.bits, rbsp.nal.data, Reach(used)))
            && (!rbsp.special ==> Rbsp.Reads(r, used, rbsp.nal.Pos()))
  {
    hide ToNat, Ue, Vlc.Valid, Plain;
    ghost var bits, start := rbsp.nal.bits, rbsp.nal.Pos();
    for i := 0 to n
      invariant rbsp.Valid() && !rbsp.special
      invariant FirstUsed(bits, start, 0, n) == FirstUsed(bits, rbsp.nal.Pos(), i, n)
    {
      FirstUsedWithin(bits, rbsp.nal.Pos(), i, n);
      var _ :- rbsp.Ue();
      var used :- rbsp.U(1);
      if used != 0 {
        return Got(i);
      }
    }
    r := Got(NO_REFERENCE);
  }

  /** slice_h265: what was read, unless the input is one of those that are not modelled. */
  method SliceH265(input: array<byte>, address: nat, log2: nat) returns (r: Read<Slice>, special: bool)
    requires log2 <= LOG2_MAX
    ensures special ==> r.Stopped?
    ensures Ordinary(input[..], HeaderReach(Bits(input[..]), log2)) ==> !special
    ensures !special ==> r == ParseSlice(Bits(input[..]), log2)
  {
    hide ToNat, Ue, Rbsp.Reader.Valid, Plain, Opening, SliceStart, RefPicSet, FirstUsed, Excused, StartAhead, Ordinary;
    ghost var bits := Bits(input[..]);
    if ParseHeader(bits, log2).Got? {
      HeaderWithin(bits, log2);
    }
    special := false;
    var rbsp, nalType := OpenSlice(input, address);
    if rbsp == null || (nalType != 1 && nalType != 20) {
      return Stopped, false;
    }
    if rbsp.special {
      NotOrdinary(input[..], rbsp.nal.data, Got(rbsp.nal.Pos()), HeaderReach(bits, log2));
      return Stopped, true;
    }
    ghost var code' := SliceStart(bits, rbsp.nal.Pos(), nalType);
    var code := ReadSliceStart(rbsp, nalType);
    if code.Stopped? {
      if rbsp.special {
        NotOrdinary(input[..], rbsp.nal.data, Reach(code'), HeaderReach(bits, log2));
      }
      return Stopped, rbsp.special;
    }
    if nalType == 1 {
      ghost var list' := RefPicSet(bits, rbsp.nal.Pos(), log2);
      var n := ReadRefPicSet(rbsp, log2);
      if n.Stopped? {
        if rbsp.special {
          NotOrdinary(input[..], rbsp.nal.data, Reach(list'), HeaderReach(bits, log2));
        }
        return Stopped, rbsp.special;
      }
      ghost var used' := FirstUsed(bits, rbsp.nal.Pos(), 0, n.value);
      var used := ReadFirstUsed(rbsp, n.value);
      if used.Stopped? {
        if rbsp.special {
          NotOrdinary(input[..], rbsp.nal.data, Reach(used'), HeaderReach(bits, log2));
        }
        return Stopped, rbsp.special;
      }
      r := Got(Slice(TypeOf(code.value), Some(used.value)));
    } else {
      r := Got(Slice(TypeOf(code.value), None));
    }
  }

  lemma NotOrdinary(bytes: seq<byte>, n: nat, reach: Read<nat>, further: Read<nat>)
    requires Opening(Bits(bytes)).Got?
    requires StartAhead(bytes, Opening(Bits(bytes)).value.next) || Excused(Bits(bytes), n, reach)
    requires further.Got? ==> reach.Got? && reach.value <= further.value
    ensures !Ordinary(bytes, further)
  {
    hide Opening, Plain, StartAhead;
    if Excused(Bits(bytes), n, reach) && Ordinary(bytes, further) {
      ExcusedFurther(Bits(bytes), n, reach, further);
      PlainIsNotExcused(Bits(bytes), n, further, |bytes|);
    }
  }

  /** Lines 350-362: of the eight bytes before the data pointer, the next unread bit is changed. */
  method PatchFlag(nal: Vlc, flag: bool)
    requires nal.Valid() && nal.Pos() > LIST_MIN && nal.ValidBits() > 0
    modifies nal.input
    ensures nal.Valid() && 8 * nal.data - 64 <= nal.Pos() < |nal.bits|
    ensures Bits(nal.input[..]) == old(Bits(nal.input[..]))[nal.Pos() := flag]
  {
    hide Bits, ToNat, ByteBits;
    ghost var before := nal.input[..];
    var from := nal.data - 8;
    var word := Bits(nal.input[from..nal.data]);
    var patched := FromBits(word[64 - nal.ValidBits() := flag]);
    forall j | 0 <= j < 8 {
      nal.input[from + j] := patched[j];
    }
    assert nal.input[..] == before[..from] + patched + before[nal.data..];
    WordPatched(before, from, patched, 64 - nal.ValidBits(), flag);
  }

  lemma WordPatched(before: seq<byte>, from: nat, patched: seq<byte>, k: nat, flag: bool)
    requires from + 8 <= |before| && k < 64 && Bits(patched) == Bits(before[from..from + 8])[k := flag]
    ensures Bits(before[..from] + patched + before[from + 8..]) == Bits(before)[8 * from + k := flag]
  {
    hide Bits;
    var a, b, c := before[..from], before[from..from + 8], before[from + 8..];
    assert before == a + b + c;
    BitsConcat(a + b, c);
    BitsConcat(a, b);
    BitsConcat(a + patched, c);
    BitsConcat(a, patched);
    UpdateMiddle(Bits(a), Bits(b), Bits(c), k, flag);
  }

  lemma UpdateMiddle<T>(a: seq<T>, b: seq<T>, c: seq<T>, k: nat, x: T)
    requires k < |b|
    ensures (a + b + c)[|a| + k := x] == a + b[k := x] + c
  {
  }

  /** slice_set_reference_frame_h265. */
  method SetReferenceFrameH265(input: array<byte>, address: nat, log2: nat, referenceFrame: nat)
    returns (r: Read<bool>, special: bool)
    requires log2 <= LOG2_MAX
    modifies input
    ensures special ==> r.Stopped?
    ensures var patch := SetReference(old(Bits(input[..])), log2, referenceFrame);
            && (Ordinary(old(input[..]), PatchReach(patch)) ==> !special)
            && (!special ==>
                  && (r.Got? <==> patch.Got?)
                  && (r.Got? ==> r.value == patch.value.found && Bits(input[..]) == patch.value.bits))
  {
    hide ToNat, Ue, Rbsp.Reader.Valid, Plain, Opening, SliceStart, RefPicSet, PatchFlags, Bits, Excused, StartAhead;
    hide Ordinary;
    ghost var bytes := input[..];
    ghost var bits := Bits(bytes);
    ghost var reach := PatchReach(SetReference(bits, log2, referenceFrame));
    PatchWithin(bits, log2, referenceFrame);
    special := false;
    var rbsp, nalType := OpenSlice(input, address);
    if rbsp == null || nalType != 1 {
      return Stopped, false;
    }
    if rbsp.special {
      NotOrdinary(bytes, rbsp.nal.data, Got(rbsp.nal.Pos()), reach);
      return Stopped, true;
    }
    ghost var code' := SliceStart(bits, rbsp.nal.Pos(), 1);
    var code := ReadSliceStart(rbsp, 1);
    if code.Stopped? || code.value != 1 {
      if rbsp.special {
        NotOrdinary(bytes, rbsp.nal.data, Reach(code'), reach);
      }
      return Stopped, rbsp.special;
    }
    ghost var list' := RefPicSet(bits, rbsp.nal.Pos(), log2);
    var n := ReadRefPicSet(rbsp, log2);
    if n.Stopped? {
      if rbsp.special {
        NotOrdinary(bytes, rbsp.nal.data, Reach(list'), reach);
      }
      return Stopped, rbsp.special;
    }
    if n.value > 0 {
      ListIsFarIn(bits, log2);
    }
    ghost var patch' := PatchFlags(bits, bits, rbsp.nal.Pos(), 0, n.value, referenceFrame);
    r := PatchList(rbsp, n.value, referenceFrame);
    special := rbsp.special;
    if special {
      NotOrdinary(bytes, rbsp.nal.data, PatchReach(patch'), reach);
    }
  }

  /** Lines 347-366. */
  method PatchList(rbsp: Rbsp.Reader, n: nat, referenceFrame: nat) returns (r: Read<bool>)
    requires rbsp.Valid() && !rbsp.special && (n > 0 ==> rbsp.nal.Pos() >= LIST_MIN)
    requires rbsp.nal.bits == Bits(rbsp.nal.input[..])
    modifies rbsp, rbsp.nal`buffer, rbsp.nal`invalidBits, rbsp.nal`data, rbsp.nal.input
    ensures var bits := rbsp.nal.bits;
            var patch := PatchFlags(bits, bits, old(rbsp.nal.Pos()), 0, n, referenceFrame);
            && (rbsp.special ==> r.Stopped? && Excused(bits, rbsp.nal.data, PatchReach(patch)))
            && (!rbsp.special ==>
                  && (r.Got? <==> patch.Got?)
                  && (r.Got? ==> r.value == patch.value.found && Bits(rbsp.nal.input[..]) == patch.value.bits))
  {
    hide ToNat, Ue, Plain, Bits, Vlc.Valid;
    ghost var bits, start := rbsp.nal.bits, rbsp.nal.Pos();
    for i := 0 to n
      invariant rbsp.Valid() && !rbsp.special && (n > 0 ==> rbsp.nal.Pos() >= LIST_MIN)
      invariant PatchFlags(bits, bits, start, 0, n, referenceFrame)
             == PatchFlags(bits, Bits(rbsp.nal.input[..]), rbsp.nal.Pos(), i, n, referenceFrame)
    {
      UeNext(bits, rbsp.nal.Pos());
      PatchFlagsWithin(bits, Bits(rbsp.nal.input[..]), rbsp.nal.Pos(), i, n, referenceFrame);
      var _ :- rbsp.Ue();
      if rbsp.nal.ValidBits() == 0 {
        return Stopped;
      }
      PatchFlag(rbsp.nal, i == referenceFrame);
      if i == referenceFrame {
        return Got(true);
      }
      var _ :- rbsp.U(1);
    }
    r := Got(false);
  }

  /** On the bytes themselves: what a successful patch has set is what is read afterwards. */
  method PatchThenSlice(input: array<byte>, address: nat, log2: nat, referenceFrame: nat)
    returns (patched: Read<bool>, r: Read<Slice>, special: bool)
    requires log2 <= LOG2_MAX
    modifies input
    ensures patched == Got(true) && !special ==> r == Got(Slice(P, Some(referenceFrame)))
  {
    hide SetReference, ParseSlice, Bits, Ordinary;
    ghost var bits := Bits(input[..]);
    patched, special := SetReferenceFrameH265(input, address, log2, referenceFrame);
    if special {
      return patched, Stopped, true;
    }
    r, special := SliceH265(input, address, log2);
    if patched == Got(true) {
      PatchIsSeen(bits, log2, referenceFrame);
    }
  }
}
