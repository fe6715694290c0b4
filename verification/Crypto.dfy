/**
 Keys and ciphertexts. Age is not modelled bit by bit: a ciphertext remembers its recipient and its
 plaintext, and opens exactly for the identity of that recipient. The key derivation function is an
 arbitrary function of password and salt; the salt itself is built byte by byte as in derive_keys.
 */
module Crypto {
  import opened Prelude
  import Utf8

  datatype Identity = Identity(secret: seq<byte>)
  datatype Recipient = RecipientOf(identity: Identity)

  function Public(identity: Identity): Recipient {
    RecipientOf(identity)
  }

  type Kdf = (seq<byte>, seq<byte>) -> Identity

  /** The padding byte at position i: `(i as u8) ^ 0xAA`. */
  function Pad(i: nat): byte
    requires i < 16
  {
    ((i as bv8) ^ 0xAA) as int
  }

  function First16(bytes: seq<byte>): seq<byte> {
    bytes[..Min(|bytes|, 16)]
  }

  /** The salt of a name given by its bytes: its first sixteen bytes, padded by position. */
  function Salt(bytes: seq<byte>): (salt: seq<byte>)
    ensures |salt| == 16
  {
    seq(16, i requires 0 <= i < 16 => if i < |bytes| then bytes[i] else Pad(i))
  }

  /** The padding that follows a name: it depends on the position only, and these are its bytes. */
  const PADDING: seq<byte> :=
    [0xAA, 0xAB, 0xA8, 0xA9, 0xAE, 0xAF, 0xAC, 0xAD, 0xA2, 0xA3, 0xA0, 0xA1, 0xA6, 0xA7, 0xA4, 0xA5]

  lemma PadIs(i: nat)
    requires i < 16
    ensures Pad(i) == PADDING[i]
  {
    assert ((0 as bv8) ^ 0xAA) as int == 0xAA;
    assert ((1 as bv8) ^ 0xAA) as int == 0xAB;
    assert ((2 as bv8) ^ 0xAA) as int == 0xA8;
    assert ((3 as bv8) ^ 0xAA) as int == 0xA9;
    assert ((4 as bv8) ^ 0xAA) as int == 0xAE;
    assert ((5 as bv8) ^ 0xAA) as int == 0xAF;
    assert ((6 as bv8) ^ 0xAA) as int == 0xAC;
    assert ((7 as bv8) ^ 0xAA) as int == 0xAD;
    assert ((8 as bv8) ^ 0xAA) as int == 0xA2;
    assert ((9 as bv8) ^ 0xAA) as int == 0xA3;
    assert ((10 as bv8) ^ 0xAA) as int == 0xA0;
    assert ((11 as bv8) ^ 0xAA) as int == 0xA1;
    assert ((12 as bv8) ^ 0xAA) as int == 0xA6;
    assert ((13 as bv8) ^ 0xAA) as int == 0xA7;
    assert ((14 as bv8) ^ 0xAA) as int == 0xA4;
    assert ((15 as bv8) ^ 0xAA) as int == 0xA5;
  }

  /** Every padding byte is one that can only continue a character, never start one. */
  lemma PadIsTail(i: nat)
    requires i < 16
    ensures Utf8.IsTail(Pad(i))
  {
    PadIs(i);
  }

  /** The sixteen bytes of a salt, one by one. */
  lemma SaltIs(name: seq<byte>, i: nat)
    requires i < 16
    ensures |Salt(name)| == 16 && Salt(name)[i] == if i < |name| then name[i] else PADDING[i]
  {
    PadIs(i);
  }

  /** The two filling loops of derive_keys. */
  method FillSalt(vaultBytes: seq<byte>) returns (saltBytes: array<byte>)
    ensures fresh(saltBytes)
    ensures saltBytes[..] == Salt(vaultBytes)
  {
    saltBytes := new byte[16](i => 0);
    for i := 0 to Min(|vaultBytes|, 16)
      invariant forall k :: 0 <= k < i ==> saltBytes[k] == vaultBytes[k]
    {
      saltBytes[i] := vaultBytes[i];
    }
    var i := |vaultBytes|;
    while i < 16
      invariant forall k :: 0 <= k < Min(|vaultBytes|, 16) ==> saltBytes[k] == vaultBytes[k]
      invariant |vaultBytes| <= i
      invariant forall k :: |vaultBytes| <= k < i && k < 16 ==> saltBytes[k] == Pad(k)
    {
      saltBytes[i] := Pad(i);
      i := i + 1;
    }
    assert forall k :: 0 <= k < 16 ==> saltBytes[..][k] == Salt(vaultBytes)[k];
  }

  /** A salt says where a short UTF-8 name ends: a longer name cannot look like its padding. */
  lemma SaltTellsShorterName(a: seq<byte>, b: seq<byte>)
    requires Utf8.Valid(a) && Utf8.Valid(b)
    requires Salt(a) == Salt(b) && |a| < |b|
    ensures 16 <= |a|
  {
    if |a| < 16 {
      assert forall i :: 0 <= i < |a| ==> Salt(a)[i] == a[i] && Salt(b)[i] == b[i];
      assert b[..|a|] == a;
      assert Salt(a)[|a|] == Pad(|a|) && Salt(b)[|a|] == b[|a|];
      PadIsTail(|a|);
      Utf8.BoundaryIsNoTail(b, |a|);
    }
  }

  /** Two names have the same salt exactly when they agree on their first sixteen bytes. */
  lemma SaltsEqualIff(name1: string, name2: string)
    ensures Salt(Utf8.Encode(name1)) == Salt(Utf8.Encode(name2))
       <==> First16(Utf8.Encode(name1)) == First16(Utf8.Encode(name2))
  {
    var a, b := Utf8.Encode(name1), Utf8.Encode(name2);
    Utf8.DecodeEncode(name1);
    Utf8.DecodeEncode(name2);
    if Salt(a) == Salt(b) {
      if |a| < |b| { SaltTellsShorterName(a, b); }
      if |b| < |a| { SaltTellsShorterName(b, a); }
      assert Min(|a|, 16) == Min(|b|, 16);
      assert forall i :: 0 <= i < Min(|a|, 16) ==> Salt(a)[i] == a[i] && Salt(b)[i] == b[i];
    }
    if First16(a) == First16(b) {
      assert forall i :: 0 <= i < |First16(a)| ==> First16(a)[i] == a[i] && First16(b)[i] == b[i];
    }
  }

  /** Different names of at most sixteen bytes never share a salt. */
  lemma ShortNamesHaveDistinctSalts(name1: string, name2: string)
    requires name1 != name2
    requires |Utf8.Encode(name1)| <= 16 && |Utf8.Encode(name2)| <= 16
    ensures Salt(Utf8.Encode(name1)) != Salt(Utf8.Encode(name2))
  {
    SaltsEqualIff(name1, name2);
    if Utf8.Encode(name1) == Utf8.Encode(name2) {
      Utf8.EncodeInjective(name1, name2);
    }
    assert First16(Utf8.Encode(name1)) == Utf8.Encode(name1);
    assert First16(Utf8.Encode(name2)) == Utf8.Encode(name2);
  }

  /** Without UTF-8 the padding is ambiguous: the byte string AA has the salt of the empty one. */
  lemma PaddingIsAmbiguousWithoutUtf8()
    ensures Salt([]) == Salt([0xAA]) && !Utf8.Valid([0xAA])
  {
    assert Pad(0) == 0xAA by {
      assert ((0 as bv8) ^ 0xAA) as int == 0xAA;
    }
  }

  function DeriveKeys(kdf: Kdf, password: string, vaultName: string): Identity {
    kdf(Utf8.Encode(password), Salt(Utf8.Encode(vaultName)))
  }

  /** The derivation sees the password and the salt of the name, in this order, and nothing else: shown by the
      two functions that hand one of them out. */
  lemma DeriveKeysSees(password: string, vaultName: string)
    ensures DeriveKeys((p, s) => Identity(p), password, vaultName).secret == Utf8.Encode(password)
    ensures DeriveKeys((p, s) => Identity(s), password, vaultName).secret == Salt(Utf8.Encode(vaultName))
  {}

  /** Names that agree on sixteen bytes derive the same keys from the same password. */
  lemma SharedPrefixSharesKeys(kdf: Kdf, password: string, name1: string, name2: string)
    requires First16(Utf8.Encode(name1)) == First16(Utf8.Encode(name2))
    ensures DeriveKeys(kdf, password, name1) == DeriveKeys(kdf, password, name2)
  {
    SaltsEqualIff(name1, name2);
  }
}
