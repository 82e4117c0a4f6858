/** The memoised GMAC key of lib/src/gkcrypt.c. SHA-256 and AES-GCM are arbitrary functions. */
module GmacSpec {
  import opened Common
  import opened Bytes
  import opened KeyStreamSpec

  const REFRESH_KEY_POS := 45000
  const REFRESH_IV_OFFSET := 44910

  type Hash = seq<byte> -> seq<byte>
  /** Key, IV and message to tag. */
  type Mac = (seq<byte>, seq<byte>, seq<byte>) -> seq<byte>

  ghost predicate IsHash(sha: Hash) {
    forall data :: |data| == 2 * BLOCK ==> |sha(data)| == 2 * BLOCK
  }

  ghost function GmacKey(sha: Hash, key: seq<byte>, iv: seq<byte>, index: nat): (k: seq<byte>)
    requires IsHash(sha) && |key| == BLOCK
    ensures |k| == BLOCK
  {
    var md := sha(key + Counter(iv, index * REFRESH_IV_OFFSET));
    Xor(md[..BLOCK], md[BLOCK..])
  }

  /** The key with a given index: the base key, or one derived from the base key. */
  ghost function K(sha: Hash, key: seq<byte>, iv: seq<byte>, index: nat): (k: seq<byte>)
    requires IsHash(sha) && |key| == BLOCK
    ensures |k| == BLOCK
  {
    var base := GmacKey(sha, key, iv, 0);
    if index == 0 then base else GmacKey(sha, base, iv, index)
  }

  /**
   A key's bits are set where the two halves of a digest differ: the digest of the counter
   44910 positions further on for every index, behind the base key, or for index 0 of the
   IV behind the key itself.
   */
  lemma KeyBits(sha: Hash, key: seq<byte>, iv: seq<byte>, index: nat, i: nat, b: nat)
    requires IsHash(sha) && |key| == BLOCK && |iv| == BLOCK && i < 16 && b < 8
    ensures var md := if index == 0 then sha(key + iv)
                      else sha(K(sha, key, iv, 0) + Counter(iv, 44910 * index));
            |md| == 32 && (BitSet(K(sha, key, iv, index)[i], b) <==> BitSet(md[i], b) != BitSet(md[16 + i], b))
  {
    hide Counter, XorByte, BitSet;
    CounterLowFirst(iv, 0);
    var source := if index == 0 then key else K(sha, key, iv, 0);
    var md := sha(source + Counter(iv, index * REFRESH_IV_OFFSET));
    assert K(sha, key, iv, index) == GmacKey(sha, source, iv, index);
    XorByteDiffers(md[i], md[16 + i], b);
  }

  /** Position 0 and every 45000 positions after it share a key; the boundary belongs to the lower index. */
  function KeyIndex(keyPos: nat): nat {
    (if keyPos > 0 then keyPos - 1 else 0) / REFRESH_KEY_POS
  }

  /** The tag of a message, as a function of its position and its bytes alone. */
  ghost function Tag(sha: Hash, gcm: Mac, key: seq<byte>, iv: seq<byte>, keyPos: nat, msg: seq<byte>): seq<byte>
    requires IsHash(sha) && |key| == BLOCK
  {
    gcm(K(sha, key, iv, KeyIndex(keyPos)), Counter(iv, keyPos / BLOCK), msg)
  }

  /** For 64-bit positions neither the product nor the counter addition wraps. */
  lemma OffsetsFit(keyPos: nat)
    requires keyPos < U64
    ensures KeyIndex(keyPos) * REFRESH_IV_OFFSET + 0x100 <= U64 && keyPos / BLOCK + 0x100 <= U64
  {
  }

  /** Positions share a key exactly when no refresh boundary lies between them. */
  lemma SameKeyIndex(p: nat, q: nat)
    requires p <= q
    ensures KeyIndex(p) <= KeyIndex(q)
    ensures KeyIndex(p) == KeyIndex(q) <==> q <= (KeyIndex(p) + 1) * 45000
    ensures KeyIndex(0) == 0
  {
    var a := if p > 0 then p - 1 else 0;
    var i := a / REFRESH_KEY_POS;
    assert REFRESH_KEY_POS * i <= a < REFRESH_KEY_POS * i + REFRESH_KEY_POS;
  }
}

module Gmac {
  import opened Common
  import opened Bytes
  import opened KeyStreamSpec
  import opened GmacSpec
  import KeyStream

  class Keys {
    const sha: Hash
    const gcm: Mac
    const keyBase: seq<byte>
    const iv: seq<byte>
    const keyGmacBase: array<byte>
    const keyGmacCurrent: array<byte>
    var indexCurrent: nat

    ghost predicate Valid()
      reads this, keyGmacBase, keyGmacCurrent
    {
      && IsHash(sha) && |keyBase| == BLOCK && |iv| == BLOCK && keyGmacBase != keyGmacCurrent
      && keyGmacBase.Length == BLOCK && keyGmacBase[..] == K(sha, keyBase, iv, 0)
      && keyGmacCurrent.Length == BLOCK && keyGmacCurrent[..] == K(sha, keyBase, iv, indexCurrent)
    }

    constructor (sha: Hash, gcm: Mac, keyBase: seq<byte>, iv: seq<byte>)
      requires IsHash(sha) && |keyBase| == BLOCK && |iv| == BLOCK
      ensures Valid() && this.sha == sha && this.gcm == gcm && this.keyBase == keyBase && this.iv == iv
      ensures indexCurrent == 0 && fresh(keyGmacBase) && fresh(keyGmacCurrent)
    {
      hide GmacKey;
      this.sha, this.gcm, this.keyBase, this.iv := sha, gcm, keyBase, iv;
      keyGmacBase, keyGmacCurrent := new byte[BLOCK], new byte[BLOCK];
      indexCurrent := 0;
      new;
      GenGmacKey(sha, 0, keyBase, iv, keyGmacBase);
      forall i | 0 <= i < BLOCK {
        keyGmacCurrent[i] := keyGmacBase[i];
      }
      assert keyGmacCurrent[..] == keyGmacBase[..];
    }

    /** Lines 202-207. */
    method GenNewGmacKey(index: nat)
      requires Valid() && index > 0 && index * REFRESH_IV_OFFSET + 0x100 <= U64
      modifies this, keyGmacCurrent
      ensures Valid() && indexCurrent == index
    {
      hide GmacKey;
      GenGmacKey(sha, index, keyGmacBase[..], iv, keyGmacCurrent);
      indexCurrent := index;
    }

    /** Lines 209-215. */
    method GenTmpGmacKey(index: nat, keyOut: array<byte>)
      requires Valid() && index * REFRESH_IV_OFFSET + 0x100 <= U64
      requires keyOut.Length == BLOCK && keyOut != keyGmacBase && keyOut != keyGmacCurrent
      modifies keyOut
      ensures Valid() && keyOut[..] == K(sha, keyBase, iv, index)
    {
      hide GmacKey;
      if index != 0 {
        GenGmacKey(sha, index, keyGmacBase[..], iv, keyOut);
      } else {
        forall i | 0 <= i < BLOCK {
          keyOut[i] := keyGmacBase[i];
        }
        assert keyOut[..] == keyGmacBase[..];
      }
    }

    /**
     chiaki_gkcrypt_gmac. Whatever was asked for before, forward or backward, the tag is the
     one of the position; the remembered key only ever moves forward.
     */
    method Gmac(keyPos: nat, buf: seq<byte>) returns (gmacOut: seq<byte>)
      requires Valid() && keyPos < U64
      modifies this, keyGmacCurrent
      ensures Valid()
      ensures gmacOut == Tag(sha, gcm, keyBase, iv, keyPos, buf)
      ensures indexCurrent == if KeyIndex(keyPos) > old(indexCurrent) then KeyIndex(keyPos) else old(indexCurrent)
    {
      hide GmacKey, LE, Digits, Pow256, Counter;
      OffsetsFit(keyPos);
      var counter := new byte[BLOCK];
      KeyStream.CounterAdd(counter, 0, iv, keyPos / BLOCK);
      KeyStream.CounterNoWrap(iv, keyPos / BLOCK);
      assert counter[..] == counter[0..0 + BLOCK];
      var gmacKey := SelectKey((if keyPos > 0 then keyPos - 1 else 0) / REFRESH_KEY_POS);
      gmacOut := gcm(gmacKey[..], counter[..], buf);
    }

    /** Lines 363-374. */
    method SelectKey(keyIndex: nat) returns (gmacKey: array<byte>)
      requires Valid() && keyIndex * REFRESH_IV_OFFSET + 0x100 <= U64
      modifies this, keyGmacCurrent
      ensures Valid() && (gmacKey == keyGmacCurrent || fresh(gmacKey))
      ensures gmacKey[..] == K(sha, keyBase, iv, keyIndex)
      ensures indexCurrent == if keyIndex > old(indexCurrent) then keyIndex else old(indexCurrent)
    {
      hide GmacKey;
      gmacKey := keyGmacCurrent;
      if keyIndex > indexCurrent {
        GenNewGmacKey(keyIndex);
      } else if keyIndex < indexCurrent {
        gmacKey := new byte[BLOCK];
        GenTmpGmacKey(keyIndex, gmacKey);
      }
    }
  }

  /** chiaki_gkcrypt_gen_gmac_key for an index whose offset does not wrap. */
  method GenGmacKey(sha: Hash, index: nat, keyBase: seq<byte>, iv: seq<byte>, keyOut: array<byte>)
    requires IsHash(sha) && |keyBase| == BLOCK && |iv| == BLOCK && keyOut.Length == BLOCK
    requires index * REFRESH_IV_OFFSET + 0x100 <= U64
    modifies keyOut
    ensures keyOut[..] == GmacKey(sha, keyBase, iv, index)
  {
    hide LE, Digits, Pow256, Counter;
    var data := new byte[2 * BLOCK];
    forall i | 0 <= i < BLOCK {
      data[i] := keyBase[i];
    }
    var offset := index * REFRESH_IV_OFFSET;
    assert data[..BLOCK] == keyBase;
    KeyStream.CounterAdd(data, BLOCK, iv, offset);
    KeyStream.CounterNoWrap(iv, offset);
    assert data[..] == data[..BLOCK] + data[BLOCK..BLOCK + BLOCK];
    var md := sha(data[..]);
    forall i | 0 <= i < BLOCK {
      keyOut[i] := XorByte(md[i], md[BLOCK + i]);
    }
  }
}
