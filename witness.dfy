/**
 * A deliberately insecure instance of the primitives, which shows that the
 * assumptions `CryptoAxioms` can all hold at once, so no lemma that takes them
 * as a hypothesis holds only vacuously. Its "ciphertexts" carry the key in clear.
 */
module Witness {
  import opened Wrappers
  import opened Crypto

  /** The header the toy cipher puts before the plaintext: key length, key, IV. */
  function ToyHeader(key: Bytes, iv: Bytes): Bytes {
    [|key| % 256] + key + iv
  }

  /** The toy sealing: the header, then the plaintext twice. */
  function ToySeal(key: Bytes, iv: Bytes, p: Bytes): Bytes {
    ToyHeader(key, iv) + p + p
  }

  /** Opens only under a valid key, behind the right header, when the two copies agree. */
  function ToyOpen(key: Bytes, iv: Bytes, c: Bytes): Option<Bytes> {
    var h := ToyHeader(key, iv);
    if ValidAesKey(key) && |h| <= |c| && c[..|h|] == h then
      var rest := c[|h|..];
      var n := |rest| / 2;
      if |rest| == 2 * n && rest[..n] == rest[n..] then Some(rest[..n]) else None
    else None
  }

  function ToyPrimitives(): Primitives {
    Primitives(
      (key, iv, p) => ToySeal(key, iv, p),
      (key, iv, c) => ToyOpen(key, iv, c),
      _ => [],
      (publicKey, m) => if |m| <= RsaMaxPlaintext then Some(publicKey + m) else None,
      (_, c) => Some(c))
  }

  /** A sealing never opens behind a different header of the same length. */
  lemma ToyHeadersDiffer(k1: Bytes, k2: Bytes, iv1: Bytes, iv2: Bytes, rest: Bytes)
    requires ValidAesKey(k1) && ToyHeader(k1, iv1) != ToyHeader(k2, iv2)
    requires |k1| == |k2| ==> |iv1| == |iv2|
    ensures ToyOpen(k2, iv2, ToyHeader(k1, iv1) + rest).None?
  {
    var c, h1, h2 := ToyHeader(k1, iv1) + rest, ToyHeader(k1, iv1), ToyHeader(k2, iv2);
    if ValidAesKey(k2) && |h2| <= |c| {
      if |k1| != |k2| {
        assert c[..|h2|][0] != h2[0];
      } else {
        assert |h1| == |h2|;
        var j :| 0 <= j < |h1| && h1[j] != h2[j];
        assert c[..|h2|][j] != h2[j];
      }
    }
  }

  /** Changing one byte of a toy sealing: the header no longer matches, or the two copies disagree. */
  lemma ToyTamperRejected(k: Bytes, iv: Bytes, p: Bytes, i: int, d: Bytes)
    requires ChangedAt(ToySeal(k, iv, p), i, d)
    ensures ToyOpen(k, iv, d).None?
  {
    var h, c := ToyHeader(k, iv), ToySeal(k, iv, p);
    if ValidAesKey(k) {
      if i < |h| {
        assert c[i] == h[i];
        assert d[..|h|][i] != h[i];
      } else {
        assert d[..|h|] == c[..|h|] == h;
        var rest, j := d[|h|..], i - |h|;
        assert |rest| == 2 * |p|;
        if j < |p| {
          assert c[|h| + |p| + j] == p[j] == c[i];
          assert rest[..|p|][j] != rest[|p|..][j];
        } else {
          assert c[|h| + j - |p|] == p[j - |p|] == c[i];
          assert rest[..|p|][j - |p|] != rest[|p|..][j - |p|];
        }
      }
    }
  }

  lemma ToyOpensSeal(k: Bytes, iv: Bytes, p: Bytes)
    requires ValidAesKey(k)
    ensures ToyOpen(k, iv, ToySeal(k, iv, p)) == Some(p)
  {
    var h := ToyHeader(k, iv);
    assert ToySeal(k, iv, p)[..|h|] == h && ToySeal(k, iv, p)[|h|..] == p + p;
  }

  lemma ToyOpenIsSeal(k: Bytes, iv: Bytes, c: Bytes)
    requires ToyOpen(k, iv, c).Some?
    ensures ValidAesKey(k) && c == ToySeal(k, iv, ToyOpen(k, iv, c).value)
  {
    var h := ToyHeader(k, iv);
    var rest := c[|h|..];
    assert rest == rest[..|rest| / 2] + rest[|rest| / 2..];
    assert c == c[..|h|] + rest;
  }

  lemma ToyIvBound(k: Bytes, iv1: Bytes, iv2: Bytes, p: Bytes)
    requires |iv1| == |iv2| && iv1 != iv2
    ensures ToyOpen(k, iv2, ToySeal(k, iv1, p)).None?
  {
    if ValidAesKey(k) {
      var h1, h2 := ToyHeader(k, iv1), ToyHeader(k, iv2);
      var j :| 0 <= j < |iv1| && iv1[j] != iv2[j];
      assert h1[1 + |k| + j] != h2[1 + |k| + j];
      ToyHeadersDiffer(k, k, iv1, iv2, p + p);
      assert ToySeal(k, iv1, p) == h1 + (p + p);
    }
  }

  lemma ToyKeySeparated(k1: Bytes, k2: Bytes, iv: Bytes, p: Bytes)
    requires ValidAesKey(k1) && k1 != k2
    ensures ToyOpen(k2, iv, ToySeal(k1, iv, p)).None?
  {
    if ValidAesKey(k2) {
      var h1, h2 := ToyHeader(k1, iv), ToyHeader(k2, iv);
      if |k1| != |k2| {
        assert h1[0] == |k1| && h2[0] == |k2|;
      } else {
        var j :| 0 <= j < |k1| && k1[j] != k2[j];
        assert h1[1 + j] == k1[j] && h2[1 + j] == k2[j];
      }
      ToyHeadersDiffer(k1, k2, iv, iv, p + p);
      assert ToySeal(k1, iv, p) == h1 + (p + p);
    }
  }

  /** The toy instance meets every assumption the protocol's lemmas make. */
  lemma ToyPrimitivesMeetAxioms()
    ensures CryptoAxioms(ToyPrimitives())
  {
    var g := ToyPrimitives();
    forall k, iv, p | ValidAesKey(k) && |iv| == IvBytes
      ensures g.gcmOpen(k, iv, g.gcmSeal(k, iv, p)) == Some(p)
    {
      ToyOpensSeal(k, iv, p);
    }
    forall k, iv, c | g.gcmOpen(k, iv, c).Some?
      ensures ValidAesKey(k) && c == g.gcmSeal(k, iv, g.gcmOpen(k, iv, c).value)
    {
      ToyOpenIsSeal(k, iv, c);
    }
    forall k, iv, p, i, d | ChangedAt(g.gcmSeal(k, iv, p), i, d)
      ensures g.gcmOpen(k, iv, d).None?
    {
      ToyTamperRejected(k, iv, p, i, d);
    }
    forall k, iv1, iv2, p | |iv1| == |iv2| && iv1 != iv2
      ensures g.gcmOpen(k, iv2, g.gcmSeal(k, iv1, p)).None?
    {
      ToyIvBound(k, iv1, iv2, p);
    }
    forall k1, k2, iv, p | ValidAesKey(k1) && k1 != k2
      ensures g.gcmOpen(k2, iv, g.gcmSeal(k1, iv, p)).None?
    {
      ToyKeySeparated(k1, k2, iv, p);
    }
    forall kp, m | |m| <= RsaMaxPlaintext
      ensures g.rsaEncrypt(g.encodedPublicKey(kp), m).Some?
      ensures g.rsaDecrypt(kp, g.rsaEncrypt(g.encodedPublicKey(kp), m).value) == Some(m)
    {
      assert [] + m == m;
    }
  }
}
