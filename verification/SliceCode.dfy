/**
 H.265 slice headers as an encoder writes them (section 7.3.6.1 of ITU-T H.265, as far as
 lib/src/bitstream.c reads), and what the parser says of them.
 */
module SliceCode {
  import opened Common
  import opened BitSpec
  import opened RbspSpec
  import opened SliceSpec

  /** A negative picture of the list: its distance and whether the slice uses it. */
  datatype Picture = Picture(delta: nat, used: bool)

  /** The list is absent if the sequence parameter set has it. */
  datatype Tail = Idr | Trailing(poc: nat, list: Option<List>)
  datatype List = List(positive: nat, pictures: seq<Picture>)

  /** `layer` is what follows the type in the header of the NAL unit. */
  datatype Written = Written(layer: seq<bool>, first: bool, noOutput: bool, pps: nat, address: nat, code: nat,
                             tail: Tail)

  predicate CanCode(v: nat) {
    ZerosOf(v) <= ZEROS_MAX
  }

  predicate CanWriteAll(pictures: seq<Picture>) {
    forall i :: 0 <= i < |pictures| ==> CanCode(pictures[i].delta)
  }

  predicate CanWrite(h: Written, log2: nat) {
    && |h.layer| == 9 && CanCode(h.pps) && CanCode(h.address) && CanCode(h.code)
    && (h.tail.Trailing? ==>
          && h.tail.poc < Pow2(log2 + 4)
          && (h.tail.list.Some? ==>
                var list := h.tail.list.value;
                CanCode(list.positive) && CanCode(|list.pictures|) && CanWriteAll(list.pictures)))
  }

  function Code(v: nat): seq<bool> {
    UeCode(v, ZerosOf(v))
  }

  function PicturesCode(pictures: seq<Picture>): seq<bool> {
    if pictures == [] then []
    else Code(pictures[0].delta) + ([pictures[0].used] + PicturesCode(pictures[1..]))
  }

  function TailCode(tail: Tail, log2: nat): seq<bool> {
    match tail
    case Idr => []
    case Trailing(poc, None) => ToBits(poc, log2 + 4) + [true]
    case Trailing(poc, Some(list)) =>
      ToBits(poc, log2 + 4) +
      ([false] + (Code(|list.pictures|) + (Code(list.positive) + PicturesCode(list.pictures))))
  }

  function StartCode(h: Written): seq<bool> {
    (if h.tail.Idr? then [h.first, h.noOutput] else [h.first]) +
    (Code(h.pps) + ((if h.first then [] else Code(h.address)) + Code(h.code)))
  }

  /** The header behind a start code of four bytes. */
  function Encoded(h: Written, log2: nat): seq<bool> {
    (Zeros(31) + [true]) +
    ([false] + (ToBits(if h.tail.Idr? then 20 else 1, 6) + (h.layer + (StartCode(h) + TailCode(h.tail, log2)))))
  }

  /** The first picture that is used, from `i` on, or 255 if none is. */
  function Nearest(pictures: seq<Picture>, i: nat): (r: nat)
    ensures r == 0xff || i <= r < i + |pictures|
  {
    if pictures == [] then 0xff
    else if pictures[0].used then i
    else Nearest(pictures[1..], i + 1)
  }

  lemma {:induction false} NearestMeans(pictures: seq<Picture>, i: nat)
    requires i + |pictures| <= 0xff
    ensures var r := Nearest(pictures, i);
            && (r == 0xff <==> forall k :: 0 <= k < |pictures| ==> !pictures[k].used)
            && (r < 0xff ==> pictures[r - i].used && forall k :: 0 <= k < r - i ==> !pictures[k].used)
  {
    if pictures != [] && !pictures[0].used {
      NearestMeans(pictures[1..], i + 1);
      var r := Nearest(pictures, i);
      forall k | 0 <= k < |pictures| && (r == 0xff || k < r - i) ensures !pictures[k].used {
        assert k > 0 ==> pictures[1..][k - 1] == pictures[k];
      }
      if r == 0xff {
      } else {
        assert pictures[1..][r - i - 1] == pictures[r - i];
      }
    }
  }

  /** `piece` stands at `pos`. */
  predicate At(bits: seq<bool>, pos: nat, piece: seq<bool>) {
    pos + |piece| <= |bits| && bits[pos..pos + |piece|] == piece
  }

  lemma AtParts(bits: seq<bool>, pos: nat, a: seq<bool>, b: seq<bool>)
    requires At(bits, pos, a + b)
    ensures At(bits, pos, a) && At(bits, pos + |a|, b)
  {
    var whole := bits[pos..pos + |a + b|];
    assert whole[..|a|] == a && whole[|a|..] == b;
    assert bits[pos..pos + |a|] == whole[..|a|] && bits[pos + |a|..pos + |a| + |b|] == whole[|a|..];
  }

  lemma UeAt(bits: seq<bool>, pos: nat, v: nat)
    requires At(bits, pos, Code(v)) && CanCode(v)
    ensures Ue(bits, pos) == Got(Field(v, pos + |Code(v)|))
  {
    hide Ue, UeCode, Pow2;
    UeInvertsCode(bits[..pos], v, ZerosOf(v), bits[pos + |Code(v)|..]);
    assert bits == bits[..pos] + Code(v) + bits[pos + |Code(v)|..];
    CodeLength(v);
  }

  lemma CodeLength(v: nat)
    ensures |Code(v)| == 2 * ZerosOf(v) + 1
  {
  }

  lemma UAt(bits: seq<bool>, pos: nat, v: nat, width: nat)
    requires At(bits, pos, ToBits(v, width)) && v < Pow2(width)
    ensures U(bits, pos, width) == Got(Field(v, pos + width))
  {
    NatOfBits(v, width);
  }

  lemma BitAt(bits: seq<bool>, pos: nat, b: bool)
    requires At(bits, pos, [b])
    ensures U(bits, pos, 1) == Got(Field(if b then 1 else 0, pos + 1))
  {
    assert bits[pos..pos + 1][0] == bits[pos];
    FlagBit(bits, pos);
  }

  /** Reading the list finds the first picture that is used. */
  lemma {:induction false} ReadPictures(bits: seq<bool>, pos: nat, pictures: seq<Picture>, i: nat)
    requires At(bits, pos, PicturesCode(pictures)) && CanWriteAll(pictures)
    ensures var used := FirstUsed(bits, pos, i, i + |pictures|);
            used.Got? && used.value.value == Nearest(pictures, i)
    decreases |pictures|
  {
    hide Ue, U, At, Code, CanCode;
    if pictures != [] {
      var p, rest := pictures[0], pictures[1..];
      AtParts(bits, pos, Code(p.delta), [p.used] + PicturesCode(rest));
      var next := pos + |Code(p.delta)|;
      AtParts(bits, next, [p.used], PicturesCode(rest));
      UeAt(bits, pos, p.delta);
      BitAt(bits, next, p.used);
      ReadPictures(bits, next + 1, rest, i + 1);
    }
  }

  /** Up to the list: the picture order count and the flag that it follows. */
  lemma ReadCount(bits: seq<bool>, pos: nat, log2: nat, poc: nat, inSps: bool, rest: seq<bool>)
    requires At(bits, pos, ToBits(poc, log2 + 4) + ([inSps] + rest)) && poc < Pow2(log2 + 4)
    ensures U(bits, pos, log2 + 4) == Got(Field(poc, pos + (log2 + 4)))
    ensures U(bits, pos + (log2 + 4), 1) == Got(Field(if inSps then 1 else 0, pos + (log2 + 5)))
    ensures At(bits, pos + (log2 + 5), rest)
  {
    hide U, At, ToBits;
    AtParts(bits, pos, ToBits(poc, log2 + 4), [inSps] + rest);
    UAt(bits, pos, poc, log2 + 4);
    AtParts(bits, pos + (log2 + 4), [inSps], rest);
    BitAt(bits, pos + (log2 + 4), inSps);
  }

  /** Its length and the number of positive pictures. */
  lemma ReadCounts(bits: seq<bool>, pos: nat, n: nat, positive: nat, rest: seq<bool>)
    requires At(bits, pos, Code(n) + (Code(positive) + rest)) && CanCode(n) && CanCode(positive)
    ensures Ue(bits, pos) == Got(Field(n, pos + |Code(n)|))
    ensures Ue(bits, pos + |Code(n)|) == Got(Field(positive, pos + |Code(n)| + |Code(positive)|))
    ensures At(bits, pos + |Code(n)| + |Code(positive)|, rest)
  {
    hide Ue, At, Code, CanCode;
    AtParts(bits, pos, Code(n), Code(positive) + rest);
    UeAt(bits, pos, n);
    AtParts(bits, pos + |Code(n)|, Code(positive), rest);
    UeAt(bits, pos + |Code(n)|, positive);
  }

  lemma ReadList(bits: seq<bool>, pos: nat, list: List, log2: nat, poc: nat)
    requires At(bits, pos, TailCode(Trailing(poc, Some(list)), log2)) && poc < Pow2(log2 + 4)
    requires CanCode(list.positive) && CanCode(|list.pictures|)
    ensures var r := RefPicSet(bits, pos, log2);
            if |list.pictures| > 16 then r == Stopped
            else
              && r.Got? && r.value.value == |list.pictures|
              && At(bits, r.value.next, PicturesCode(list.pictures))
              && r.value.next + |PicturesCode(list.pictures)| ==
                 pos + |TailCode(Trailing(poc, Some(list)), log2)|
  {
    hide Ue, U, At, Code, CanCode, ToBits, PicturesCode, Pow2;
    var pictures := PicturesCode(list.pictures);
    ReadCount(bits, pos, log2, poc, false, Code(|list.pictures|) + (Code(list.positive) + pictures));
    ReadCounts(bits, pos + (log2 + 5), |list.pictures|, list.positive, pictures);
  }

  lemma ReadNoList(bits: seq<bool>, pos: nat, log2: nat, poc: nat)
    requires At(bits, pos, TailCode(Trailing(poc, None), log2)) && poc < Pow2(log2 + 4)
    ensures var r := RefPicSet(bits, pos, log2); r.Got? && r.value.value == 0
  {
    hide Ue, U, At, ToBits, Pow2;
    assert [true] + [] == [true];
    ReadCount(bits, pos, log2, poc, true, []);
  }

  lemma ReadStart(bits: seq<bool>, pos: nat, h: Written, log2: nat)
    requires At(bits, pos, StartCode(h)) && CanWrite(h, log2)
    ensures SliceStart(bits, pos, if h.tail.Idr? then 20 else 1) == Got(Field(h.code, pos + |StartCode(h)|))
  {
    hide Ue, U, At, Code, CanCode;
    var flags := if h.tail.Idr? then [h.first, h.noOutput] else [h.first];
    var address := if h.first then [] else Code(h.address);
    AtParts(bits, pos, flags, Code(h.pps) + (address + Code(h.code)));
    ReadFlags(bits, pos, h);
    var next := pos + |flags|;
    AtParts(bits, next, Code(h.pps), address + Code(h.code));
    UeAt(bits, next, h.pps);
    AtParts(bits, next + |Code(h.pps)|, address, Code(h.code));
    if !h.first {
      UeAt(bits, next + |Code(h.pps)|, h.address);
    }
    UeAt(bits, next + |Code(h.pps)| + |address|, h.code);
  }

  lemma ReadFlags(bits: seq<bool>, pos: nat, h: Written)
    requires At(bits, pos, if h.tail.Idr? then [h.first, h.noOutput] else [h.first])
    ensures U(bits, pos, 1) == Got(Field(if h.first then 1 else 0, pos + 1))
    ensures h.tail.Idr? ==> U(bits, pos + 1, 1).Got? && U(bits, pos + 1, 1).value.next == pos + 2
  {
    hide U, At;
    if h.tail.Idr? {
      assert [h.first, h.noOutput] == [h.first] + [h.noOutput];
      AtParts(bits, pos, [h.first], [h.noOutput]);
      BitAt(bits, pos + 1, h.noOutput);
    }
    BitAt(bits, pos, h.first);
  }

  lemma ReadOpening(bits: seq<bool>, h: Written, log2: nat)
    requires At(bits, 0, Encoded(h, log2)) && |h.layer| == 9
    ensures Opening(bits) == Got(Field(if h.tail.Idr? then 20 else 1, 48))
    ensures At(bits, 48, StartCode(h) + TailCode(h.tail, log2))
  {
    hide At, ToBits, StartCode, TailCode, ToNat;
    var nalType := if h.tail.Idr? then 20 else 1;
    var rest := StartCode(h) + TailCode(h.tail, log2);
    var unit := [false] + (ToBits(nalType, 6) + (h.layer + rest));
    AtParts(bits, 0, Zeros(31) + [true], unit);
    AtParts(bits, 32, [false], ToBits(nalType, 6) + (h.layer + rest));
    AtParts(bits, 33, ToBits(nalType, 6), h.layer + rest);
    AtParts(bits, 39, h.layer, rest);
    FirstIsHere(bits);
    TypeIsThere(bits, nalType);
  }

  lemma FirstIsHere(bits: seq<bool>)
    requires At(bits, 0, Zeros(31) + [true])
    ensures FirstStart(bits, 0) == Got(0)
  {
    hide ToNat;
    var code := Zeros(31) + [true];
    assert code[..31] == Zeros(31);
    NatOfZeros(31);
    ToNatLast(code);
    assert bits[8 * 0..8 * 0 + 32] == code;
  }

  lemma {:induction false} NatOfZeros(n: nat)
    ensures ToNat(Zeros(n)) == 0
  {
    if n > 0 {
      NatOfZeros(n - 1);
      assert Zeros(n)[..n - 1] == Zeros(n - 1);
    }
  }

  lemma TypeIsThere(bits: seq<bool>, nalType: nat)
    requires At(bits, 33, ToBits(nalType, 6)) && nalType < 64 && 48 <= |bits|
    ensures NalHeader(bits, 32) == Got(Field(nalType, 48))
  {
    assert Pow2(6) == 64;
    NatOfBits(nalType, 6);
  }

  /**
   The parser reads what the encoder wrote: a P slice for the code 1, an I slice for 2, and
   of a trailing picture the first picture in the list that is used, 255 if there is none
   or no list. Only a list of more than 16 pictures is refused.
   */
  lemma ParseWritten(h: Written, log2: nat, rest: seq<bool>)
    requires CanWrite(h, log2)
    ensures var sliceType := if h.code == 1 then P else if h.code == 2 then I else Unknown;
            ParseSlice(Encoded(h, log2) + rest, log2) ==
            match h.tail
            case Idr => Got(Slice(sliceType, None))
            case Trailing(_, None) => Got(Slice(sliceType, Some(0xff)))
            case Trailing(_, Some(list)) =>
              if |list.pictures| > 16 then Stopped else Got(Slice(sliceType, Some(Nearest(list.pictures, 0))))
  {
    hide Ue, U, At, Opening, SliceStart, RefPicSet, StartCode, CanCode, CanWriteAll, Nearest, Encoded, TailCode;
    var bits := Encoded(h, log2) + rest;
    AtStart(Encoded(h, log2), rest);
    ReadOpening(bits, h, log2);
    AtParts(bits, 48, StartCode(h), TailCode(h.tail, log2));
    ReadStart(bits, 48, h, log2);
    var next := 48 + |StartCode(h)|;
    match h.tail
    case Idr =>
    case Trailing(poc, None) => ReadNoList(bits, next, log2, poc);
    case Trailing(poc, Some(list)) =>
      ReadList(bits, next, list, log2, poc);
      if |list.pictures| <= 16 {
        ReadPictures(bits, RefPicSet(bits, next, log2).value.next, list.pictures, 0);
      }
  }

  lemma AtStart(bits: seq<bool>, rest: seq<bool>)
    ensures At(bits + rest, 0, bits)
  {
  }

  /** The pictures with the flags up to `r` cleared, and that of `r` set; the first of them has number `i`. */
  function Repoint(pictures: seq<Picture>, i: nat, r: nat): (after: seq<Picture>)
    ensures |after| == |pictures|
  {
    if pictures == [] then []
    else
      [if i <= r then pictures[0].(used := i == r) else pictures[0]] + Repoint(pictures[1..], i + 1, r)
  }

  lemma {:induction false} RepointMeans(pictures: seq<Picture>, i: nat, r: nat, k: nat)
    requires k < |pictures|
    ensures Repoint(pictures, i, r)[k] ==
            if i + k <= r then pictures[k].(used := i + k == r) else pictures[k]
  {
    if k > 0 {
      RepointMeans(pictures[1..], i + 1, r, k - 1);
    }
  }

  lemma RepointNothing(pictures: seq<Picture>, i: nat, r: nat)
    requires r < i
    ensures Repoint(pictures, i, r) == pictures
  {
    forall k | 0 <= k < |pictures| ensures Repoint(pictures, i, r)[k] == pictures[k] {
      RepointMeans(pictures, i, r, k);
    }
  }

  lemma {:induction false} NearestRepointed(pictures: seq<Picture>, i: nat, r: nat)
    requires i <= r < i + |pictures|
    ensures Nearest(Repoint(pictures, i, r), i) == r
  {
    if i < r {
      NearestRepointed(pictures[1..], i + 1, r);
    }
  }

  /** `bits` with `piece` at `pos`. */
  function Replaced(bits: seq<bool>, pos: nat, piece: seq<bool>): (after: seq<bool>)
    requires pos + |piece| <= |bits|
    ensures |after| == |bits|
  {
    bits[..pos] + piece + bits[pos + |piece|..]
  }

  lemma ReplaceParts(bits: seq<bool>, pos: nat, a: seq<bool>, b: seq<bool>)
    requires pos + |a| + |b| <= |bits|
    ensures Replaced(Replaced(bits, pos, a), pos + |a|, b) == Replaced(bits, pos, a + b)
  {
  }

  lemma ReplaceByItself(bits: seq<bool>, pos: nat, piece: seq<bool>)
    requires At(bits, pos, piece)
    ensures Replaced(bits, pos, piece) == bits
  {
  }

  lemma AtReplaced(bits: seq<bool>, pos: nat, piece: seq<bool>, from: nat, other: seq<bool>)
    requires pos + |piece| <= from && At(bits, from, other)
    ensures At(Replaced(bits, pos, piece), from, other)
  {
  }

  /** Patching the written list writes the list with the flags changed. */
  lemma {:induction false} PatchPictures(
    bits: seq<bool>, now: seq<bool>, pos: nat, pictures: seq<Picture>, i: nat, r: nat)
    requires |now| == |bits| && CanWriteAll(pictures) && i <= r
    requires At(bits, pos, PicturesCode(pictures)) && At(now, pos, PicturesCode(pictures))
    ensures var patch, code := PatchFlags(bits, now, pos, i, i + |pictures|, r), PicturesCode(Repoint(pictures, i, r));
            && patch.Got? && (patch.value.found <==> r < i + |pictures|)
            && pos + |code| <= |now| && patch.value.bits == Replaced(now, pos, code)
    decreases |pictures|
  {
    hide Ue, At, Code, CanCode, Replaced;
    if pictures == [] {
      NothingToReplace(now, pos);
    } else {
      var p, rest := pictures[0], pictures[1..];
      var flag := pos + |Code(p.delta)|;
      AtParts(bits, pos, Code(p.delta), [p.used] + PicturesCode(rest));
      AtParts(bits, flag, [p.used], PicturesCode(rest));
      AtParts(now, pos, Code(p.delta), [p.used] + PicturesCode(rest));
      AtParts(now, flag, [p.used], PicturesCode(rest));
      UeAt(bits, pos, p.delta);
      hide PatchFlags;
      PatchesFirst(bits, now, pos, i, i + |pictures|, r);
      IsInside(bits, flag, p.used);
      SetAt(now, flag, i == r);
      var next := now[flag := i == r];
      AtReplaced(now, flag, [i == r], flag + 1, PicturesCode(rest));
      var after := PicturesCode(Repoint(rest, i + 1, r));
      if i == r {
        RepointNothing(rest, i + 1, r);
        ReplaceByItself(next, flag + 1, after);
        EndsInside(next, flag + 1, after);
      } else {
        PatchPictures(bits, next, flag + 1, rest, i + 1, r);
      }
      FirstCode(p.delta, i == r, Repoint(rest, i + 1, r));
      ReplaceByItself(now, pos, Code(p.delta));
      ReplaceParts(now, flag, [i == r], after);
      ReplaceParts(now, pos, Code(p.delta), [i == r] + after);
    }
  }

  lemma PatchesFirst(bits: seq<bool>, now: seq<bool>, pos: nat, i: nat, n: nat, r: nat)
    requires |now| == |bits| && i < n && Ue(bits, pos).Got?
    ensures var flag := Ue(bits, pos).value.next;
            PatchFlags(bits, now, pos, i, n, r) ==
            if flag >= |bits| then Stopped
            else if i == r then Got(Patch(true, now[flag := true], flag))
            else PatchFlags(bits, now[flag := false], flag + 1, i + 1, n, r)
  {
    hide Ue;
  }

  lemma IsInside(bits: seq<bool>, pos: nat, b: bool)
    requires At(bits, pos, [b])
    ensures pos < |bits|
  {
  }

  lemma EndsInside(bits: seq<bool>, pos: nat, piece: seq<bool>)
    requires At(bits, pos, piece)
    ensures pos + |piece| <= |bits|
  {
  }

  lemma SetAt(bits: seq<bool>, pos: nat, b: bool)
    requires pos < |bits|
    ensures Replaced(bits, pos, [b]) == bits[pos := b]
  {
  }

  lemma NothingToReplace(bits: seq<bool>, pos: nat)
    requires At(bits, pos, [])
    ensures pos <= |bits| && Replaced(bits, pos, []) == bits
  {
  }

  lemma FirstCode(delta: nat, used: bool, rest: seq<Picture>)
    ensures PicturesCode([Picture(delta, used)] + rest) == Code(delta) + ([used] + PicturesCode(rest))
  {
    assert ([Picture(delta, used)] + rest)[1..] == rest;
  }

  /** Everything of a header but its list. */
  function Front(h: Written, log2: nat): seq<bool>
    requires h.tail.Trailing? && h.tail.list.Some?
  {
    var list := h.tail.list.value;
    (Zeros(31) + [true]) + ([false] + (ToBits(1, 6) + (h.layer + (StartCode(h) +
      (ToBits(h.tail.poc, log2 + 4) + ([false] + (Code(|list.pictures|) + Code(list.positive))))))))
  }

  lemma EncodedIsFront(h: Written, log2: nat)
    requires h.tail.Trailing? && h.tail.list.Some?
    ensures Encoded(h, log2) == Front(h, log2) + PicturesCode(h.tail.list.value.pictures)
  {
    hide StartCode, Code, ToBits;
  }

  /** The header with the list changed to refer to picture `r`. */
  function Repointed(h: Written, r: nat): Written
    requires h.tail.Trailing? && h.tail.list.Some?
  {
    var list := h.tail.list.value;
    h.(tail := Trailing(h.tail.poc, Some(List(list.positive, Repoint(list.pictures, 0, r)))))
  }

  lemma FrontOfRepointed(h: Written, log2: nat, r: nat)
    requires h.tail.Trailing? && h.tail.list.Some?
    ensures Front(Repointed(h, r), log2) == Front(h, log2)
  {
    hide Code, ToBits;
  }

  lemma LengthOfEncoded(h: Written, log2: nat)
    requires |h.layer| == 9
    ensures |Encoded(h, log2)| == 48 + |StartCode(h)| + |TailCode(h.tail, log2)|
  {
    hide StartCode, TailCode, ToBits;
  }

  lemma {:induction false} SameCodeLength(pictures: seq<Picture>, i: nat, r: nat)
    ensures |PicturesCode(Repoint(pictures, i, r))| == |PicturesCode(pictures)|
  {
    hide Code;
    if pictures != [] {
      SameCodeLength(pictures[1..], i + 1, r);
      assert Repoint(pictures, i, r)[1..] == Repoint(pictures[1..], i + 1, r);
    }
  }

  lemma ReplaceInside(front: seq<bool>, before: seq<bool>, after: seq<bool>, rest: seq<bool>)
    requires |before| == |after|
    ensures Replaced(front + before + rest, |front|, after) == front + after + rest
  {
  }

  /**
   Patching the header of a P slice that an encoder wrote gives the header it would have
   written had the slice used picture `r` and none before it; it succeeds if the list has
   that picture, and leaves all that follows as it is.
   */
  lemma PatchWritten(h: Written, log2: nat, rest: seq<bool>, r: nat)
    requires CanWrite(h, log2) && h.code == 1
    requires h.tail.Trailing? && h.tail.list.Some? && |h.tail.list.value.pictures| <= 16
    ensures var patch := SetReference(Encoded(h, log2) + rest, log2, r);
            && patch.Got? && (patch.value.found <==> r < |h.tail.list.value.pictures|)
            && patch.value.bits == Encoded(Repointed(h, r), log2) + rest
  {
    hide Ue, U, At, Opening, SliceStart, RefPicSet, StartCode, CanCode, CanWriteAll, Encoded, TailCode, PatchFlags;
    hide PicturesCode, Front, Repoint, Replaced;
    var bits, list := Encoded(h, log2) + rest, h.tail.list.value;
    AtStart(Encoded(h, log2), rest);
    ReadOpening(bits, h, log2);
    AtParts(bits, 48, StartCode(h), TailCode(h.tail, log2));
    ReadStart(bits, 48, h, log2);
    var next := 48 + |StartCode(h)|;
    ReadList(bits, next, list, log2, h.tail.poc);
    var pos := RefPicSet(bits, next, log2).value.next;
    PatchPictures(bits, bits, pos, list.pictures, 0, r);
    LengthOfEncoded(h, log2);
    EncodedIsFront(h, log2);
    EncodedIsFront(Repointed(h, r), log2);
    FrontOfRepointed(h, log2, r);
    SameCodeLength(list.pictures, 0, r);
    var after := PicturesCode(Repoint(list.pictures, 0, r));
    ReplaceInside(Front(h, log2), PicturesCode(list.pictures), after, rest);
  }
}
