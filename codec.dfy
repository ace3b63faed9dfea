/** Fixed-width big-endian and little-endian conversion between non-negative
    integers and byte buffers (src/utils_native.js).  The codecs work in
    chunks of 4, 2 or 1 bytes; the value they read or write is the positional
    sum of the bytes whatever chunks are used. */
module Codec {
  import opened Wrappers
  import opened ModArith

  newtype byte = b: int | 0 <= b < 256

  /** 256^k. */
  function Pow256(k: nat): (r: nat)
    ensures r >= 1
  {
    if k == 0 then 1 else 256 * Pow256(k - 1)
  }

  /** The big-endian value: the sum of s[i] * 256^(|s| - 1 - i). */
  function BeValue(s: seq<byte>): nat
  {
    if |s| == 0 then 0 else s[0] as nat * Pow256(|s| - 1) + BeValue(s[1..])
  }

  /** The little-endian value: the sum of s[i] * 256^i. */
  function LeValue(s: seq<byte>): nat
  {
    if |s| == 0 then 0 else LeValue(s[..|s| - 1]) + s[|s| - 1] as nat * Pow256(|s| - 1)
  }

  /** The low len bytes of n, most significant first. */
  function BeBytes(n: int, len: nat): (s: seq<byte>)
    ensures |s| == len
    decreases len
  {
    if len == 0 then [] else BeBytes(n / 256, len - 1) + [(n % 256) as byte]
  }

  /** The low len bytes of n, least significant first. */
  function LeBytes(n: int, len: nat): (s: seq<byte>)
    ensures |s| == len
    decreases len
  {
    if len == 0 then [] else [(n % 256) as byte] + LeBytes(n / 256, len - 1)
  }

  // ---------------------------------------------------------------------
  // Powers of 256

  lemma {:induction false} Pow256Add(i: nat, j: nat)
    ensures Pow256(i + j) == Pow256(i) * Pow256(j)
  {
    if i > 0 {
      Pow256Add(i - 1, j);
    }
  }

  /** An integer fits in len bytes exactly when shifting it right by
      8 * len bits leaves 0. */
  lemma FitsIff(n: int, len: nat)
    ensures n / Pow256(len) == 0 <==> 0 <= n < Pow256(len)
  {
    var d := Pow256(len);
    if 0 <= n < d {
      DivModUnique(n, d, 0, n);
    }
    if n / d == 0 {
      assert n == d * (n / d) + n % d;
    }
  }

  // ---------------------------------------------------------------------
  // Values of byte sequences

  /** A digit below 256 in front of a smaller value stays below the next place. */
  lemma PlaceBound(x: nat, P: nat, rest: nat)
    requires x < 256 && rest < P
    ensures x * P + rest < 256 * P
  {
    MulMonotone(P, x, 255);
  }

  lemma FactorOut(P: int, f: int, y: int, Q: int)
    ensures P * f + y * (P * Q) == P * (f + y * Q)
    ensures y * (P * Q) + f * Q == (y * P + f) * Q
  {
    MulAssoc(y, P, Q);
    MulAssoc(P, y, Q);
    Distribute(P, f, y * Q);
    Distribute(Q, y * P, f);
  }

  lemma {:induction false} BeValueAppend(a: seq<byte>, b: seq<byte>)
    ensures BeValue(a + b) == BeValue(a) * Pow256(|b|) + BeValue(b)
  {
    if |a| == 0 {
      assert a + b == b;
    } else {
      var x := a[0] as nat;
      assert (a + b)[0] == a[0];
      assert (a + b)[1..] == a[1..] + b;
      BeValueAppend(a[1..], b);
      Pow256Add(|a| - 1, |b|);
      var P, Q, rest := Pow256(|a| - 1), Pow256(|b|), BeValue(a[1..]);
      calc {
        BeValue(a + b);
        x * Pow256(|a| - 1 + |b|) + BeValue(a[1..] + b);
        x * (P * Q) + (rest * Q + BeValue(b));
        { FactorOut(P, rest, x, Q); }
        (x * P + rest) * Q + BeValue(b);
      }
    }
  }

  lemma {:induction false} LeValueAppend(a: seq<byte>, b: seq<byte>)
    ensures LeValue(a + b) == LeValue(a) + Pow256(|a|) * LeValue(b)
  {
    if |b| == 0 {
      assert a + b == a;
    } else {
      var n := |a + b|;
      var b', y := b[..|b| - 1], b[|b| - 1] as nat;
      assert (a + b)[..n - 1] == a + b';
      assert (a + b)[n - 1] == b[|b| - 1];
      LeValueAppend(a, b');
      Pow256Add(|a|, |b| - 1);
      var P, Q, front := Pow256(|a|), Pow256(|b| - 1), LeValue(b');
      calc {
        LeValue(a + b);
        LeValue(a + b') + y * Pow256(|a| + (|b| - 1));
        LeValue(a) + P * front + y * (P * Q);
        { FactorOut(P, front, y, Q); }
        LeValue(a) + P * (front + y * Q);
      }
    }
  }

  /** A buffer of len bytes holds a value below 256^len. */
  lemma {:induction false} BeValueBound(s: seq<byte>)
    ensures BeValue(s) < Pow256(|s|)
  {
    if |s| > 0 {
      BeValueBound(s[1..]);
      PlaceBound(s[0] as nat, Pow256(|s| - 1), BeValue(s[1..]));
    }
  }

  lemma {:induction false} LeValueBound(s: seq<byte>)
    ensures LeValue(s) < Pow256(|s|)
  {
    if |s| > 0 {
      LeValueBound(s[..|s| - 1]);
      PlaceBound(s[|s| - 1] as nat, Pow256(|s| - 1), LeValue(s[..|s| - 1]));
    }
  }

  // ---------------------------------------------------------------------
  // Encoding and decoding are inverse

  /** Encoding keeps n modulo 256^len. */
  lemma {:induction false} BeBytesValue(n: int, len: nat)
    ensures BeValue(BeBytes(n, len)) == n % Pow256(len)
    decreases len
  {
    if len == 0 {
      DivModUnique(n, 1, n, 0);
    } else {
      BeBytesValue(n / 256, len - 1);
      BeValueAppend(BeBytes(n / 256, len - 1), [(n % 256) as byte]);
      assert BeValue([(n % 256) as byte]) == n % 256;
      ModMulDiv(n, 256, Pow256(len - 1));
    }
  }

  lemma {:induction false} LeBytesValue(n: int, len: nat)
    ensures LeValue(LeBytes(n, len)) == n % Pow256(len)
    decreases len
  {
    if len == 0 {
      DivModUnique(n, 1, n, 0);
    } else {
      LeBytesValue(n / 256, len - 1);
      LeValueAppend([(n % 256) as byte], LeBytes(n / 256, len - 1));
      assert LeValue([(n % 256) as byte]) == n % 256;
      ModMulDiv(n, 256, Pow256(len - 1));
    }
  }

  /** Decoding then encoding at the same width gives the bytes back. */
  lemma {:induction false} BeBytesOfValue(s: seq<byte>)
    ensures BeBytes(BeValue(s), |s|) == s
  {
    if |s| > 0 {
      var s', x := s[..|s| - 1], s[|s| - 1];
      assert s == s' + [x];
      BeValueAppend(s', [x]);
      assert BeValue([x]) == x as nat;
      DivModUnique(BeValue(s), 256, BeValue(s'), x as int);
      BeBytesOfValue(s');
    }
  }

  lemma {:induction false} LeBytesOfValue(s: seq<byte>)
    ensures LeBytes(LeValue(s), |s|) == s
  {
    if |s| > 0 {
      var x, s' := s[0], s[1..];
      assert s == [x] + s';
      LeValueAppend([x], s');
      assert LeValue([x]) == x as nat;
      DivModUnique(LeValue(s), 256, LeValue(s'), x as int);
      LeBytesOfValue(s');
    }
  }

  /** The first j bytes written and the next k bytes of what is left. */
  lemma {:induction false} BeBytesSplit(n: int, j: nat, k: nat)
    ensures BeBytes(n, j + k) == BeBytes(n / Pow256(j), k) + BeBytes(n, j)
    decreases j
  {
    if j == 0 {
      DivModUnique(n, 1, n, 0);
    } else {
      BeBytesSplit(n / 256, j - 1, k);
      DivDiv(n, 256, Pow256(j - 1));
      var low := [(n % 256) as byte];
      calc {
        BeBytes(n, j + k);
        BeBytes(n / 256, (j - 1) + k) + low;
        (BeBytes(n / Pow256(j), k) + BeBytes(n / 256, j - 1)) + low;
        BeBytes(n / Pow256(j), k) + (BeBytes(n / 256, j - 1) + low);
      }
    }
  }

  lemma {:induction false} LeBytesSplit(n: int, j: nat, k: nat)
    ensures LeBytes(n, j + k) == LeBytes(n, j) + LeBytes(n / Pow256(j), k)
    decreases j
  {
    if j == 0 {
      DivModUnique(n, 1, n, 0);
    } else {
      LeBytesSplit(n / 256, j - 1, k);
      DivDiv(n, 256, Pow256(j - 1));
      var low := [(n % 256) as byte];
      calc {
        LeBytes(n, j + k);
        low + LeBytes(n / 256, (j - 1) + k);
        low + (LeBytes(n / 256, j - 1) + LeBytes(n / Pow256(j), k));
        (low + LeBytes(n / 256, j - 1)) + LeBytes(n / Pow256(j), k);
      }
    }
  }

  /** Writing the masked chunk r & (256^k - 1) writes the same bytes as r. */
  lemma {:induction false} BeBytesMask(n: int, k: nat)
    ensures BeBytes(n % Pow256(k), k) == BeBytes(n, k)
    decreases k
  {
    if k > 0 {
      var m := n % Pow256(k);
      ModMulDiv(n, 256, Pow256(k - 1));
      DivModUnique(m, 256, (n / 256) % Pow256(k - 1), n % 256);
      BeBytesMask(n / 256, k - 1);
    }
  }

  lemma {:induction false} LeBytesMask(n: int, k: nat)
    ensures LeBytes(n % Pow256(k), k) == LeBytes(n, k)
    decreases k
  {
    if k > 0 {
      var m := n % Pow256(k);
      ModMulDiv(n, 256, Pow256(k - 1));
      DivModUnique(m, 256, (n / 256) % Pow256(k - 1), n % 256);
      LeBytesMask(n / 256, k - 1);
    }
  }

  /** n fits in len bytes exactly when nothing is left of it after len
      bytes, and then its bytes read back as n in either order. */
  lemma EncodingFits(n: int, len: nat)
    ensures n / Pow256(len) == 0 <==> 0 <= n < Pow256(len)
    ensures 0 <= n < Pow256(len) ==> BeValue(BeBytes(n, len)) == n && LeValue(LeBytes(n, len)) == n
  {
    FitsIff(n, len);
    BeBytesValue(n, len);
    LeBytesValue(n, len);
    if 0 <= n < Pow256(len) {
      SmallMod(n, Pow256(len));
    }
  }

  // ---------------------------------------------------------------------
  // One chunk of a loop

  lemma Pow256Chunks()
    ensures Pow256(1) == 0x100 && Pow256(2) == 0x1_0000 && Pow256(4) == 0x1_0000_0000
  {
  }

  /** The bytes from i on are the chunk buff[i..i + k] followed by the rest. */
  lemma BeValueChunk(buff: array<byte>, i: nat, k: nat)
    requires i + k <= buff.Length
    ensures BeValue(buff[i..]) == BeValue(buff[i..i + k]) * Pow256(buff.Length - i - k)
                                  + BeValue(buff[i + k..])
  {
    assert buff[i..] == buff[i..i + k] + buff[i + k..];
    BeValueAppend(buff[i..i + k], buff[i + k..]);
  }

  /** The bytes up to i + k are those up to i followed by the chunk buff[i..i + k]. */
  lemma LeValueChunk(buff: array<byte>, i: nat, k: nat)
    requires i + k <= buff.Length
    ensures LeValue(buff[..i + k]) == LeValue(buff[..i]) + LeValue(buff[i..i + k]) * Pow256(i)
  {
    assert buff[..i + k] == buff[..i] + buff[i..i + k];
    LeValueAppend(buff[..i], buff[i..i + k]);
  }

  /** Having written the low `done` bytes of n, with r the rest of n, writing
      the low k bytes of r (r masked with M - 1) gives the low done + k bytes
      of n, and r shifted right by 8 * k bits is the new rest. */
  lemma BeEncodeStep(n: int, done: nat, k: nat, r: int, M: int)
    requires r == n / Pow256(done) && M == Pow256(k)
    ensures BeBytes(r % M, k) + BeBytes(n, done) == BeBytes(n, done + k)
    ensures r / M == n / Pow256(done + k)
  {
    BeBytesSplit(n, done, k);
    BeBytesMask(r, k);
    Pow256Add(done, k);
    DivDiv(n, Pow256(done), Pow256(k));
  }

  lemma LeEncodeStep(n: int, done: nat, k: nat, r: int, M: int)
    requires r == n / Pow256(done) && M == Pow256(k)
    ensures LeBytes(n, done) + LeBytes(r % M, k) == LeBytes(n, done + k)
    ensures r / M == n / Pow256(done + k)
  {
    LeBytesSplit(n, done, k);
    LeBytesMask(r, k);
    Pow256Add(done, k);
    DivDiv(n, Pow256(done), Pow256(k));
  }

  // ---------------------------------------------------------------------
  // Writing a chunk into a buffer (writeUInt32BE, writeUInt16LE, ...)

  /** Writes value as k big-endian bytes at offset o; the rest of the
      buffer is untouched. */
  method WriteUIntBE(buff: array<byte>, value: nat, o: nat, k: nat)
    requires o + k <= buff.Length && value < Pow256(k)
    modifies buff
    ensures buff[..o] == old(buff[..o])
    ensures buff[o..] == BeBytes(value, k) + old(buff[o + k..])
  {
    var bytes := BeBytes(value, k);
    forall j | o <= j < o + k {
      buff[j] := bytes[j - o];
    }
    assert buff[o..] == buff[o..o + k] + buff[o + k..];
  }

  /** Writes value as k little-endian bytes at offset o. */
  method WriteUIntLE(buff: array<byte>, value: nat, o: nat, k: nat)
    requires o + k <= buff.Length && value < Pow256(k)
    modifies buff
    ensures buff[..o + k] == old(buff[..o]) + LeBytes(value, k)
    ensures buff[o + k..] == old(buff[o + k..])
  {
    var bytes := LeBytes(value, k);
    forall j | o <= j < o + k {
      buff[j] := bytes[j - o];
    }
    assert buff[..o + k] == buff[..o] + buff[o..o + k];
  }

  // ---------------------------------------------------------------------
  // The four conversions

  /** beBuff2int: reads the buffer from its end in chunks of 4, 2 or 1
      bytes, each shifted left by the number of bytes already read. */
  method BeBuff2Int(buff: array<byte>) returns (res: nat)
    ensures res == BeValue(buff[..]) && res < Pow256(buff.Length)
    ensures BeBytes(res, buff.Length) == buff[..]
  {
    res := 0;
    var i := buff.Length;
    var offset := 0;
    while i > 0
      invariant 0 <= i <= buff.Length && i + offset == buff.Length
      invariant res == BeValue(buff[i..])
    {
      if i >= 4 {
        i := i - 4;
        BeValueChunk(buff, i, 4);
        res := res + BeValue(buff[i..i + 4]) * Pow256(offset);
        offset := offset + 4;
      } else if i >= 2 {
        i := i - 2;
        BeValueChunk(buff, i, 2);
        res := res + BeValue(buff[i..i + 2]) * Pow256(offset);
        offset := offset + 2;
      } else {
        i := i - 1;
        BeValueChunk(buff, i, 1);
        res := res + BeValue(buff[i..i + 1]) * Pow256(offset);
        offset := offset + 1;
      }
    }
    assert buff[i..] == buff[..];
    BeValueBound(buff[..]);
    BeBytesOfValue(buff[..]);
  }

  /** leBuff2int: reads the buffer from its start, each chunk shifted left
      by its own offset.  The second branch repeats the test of the first,
      so the two-byte read is never taken: a buffer is read as 4-byte chunks
      and then single bytes. */
  method LeBuff2Int(buff: array<byte>) returns (res: nat)
    ensures res == LeValue(buff[..]) && res < Pow256(buff.Length)
    ensures LeBytes(res, buff.Length) == buff[..]
  {
    res := 0;
    var i := 0;
    while i < buff.Length
      invariant 0 <= i <= buff.Length
      invariant res == LeValue(buff[..i])
    {
      if i + 4 <= buff.Length {
        LeValueChunk(buff, i, 4);
        res := res + LeValue(buff[i..i + 4]) * Pow256(i);
        i := i + 4;
      } else if i + 4 <= buff.Length {
        assert false;
      } else {
        LeValueChunk(buff, i, 1);
        res := res + LeValue(buff[i..i + 1]) * Pow256(i);
        i := i + 1;
      }
    }
    assert buff[..i] == buff[..];
    LeValueBound(buff[..]);
    LeBytesOfValue(buff[..]);
  }

  /** beInt2Buff: writes n into a fresh zeroed buffer of len bytes from its
      end in chunks of 4, 2 or 1 bytes, shifting n right after each; what is
      left of n must be 0 at the end. */
  method BeInt2Buff(n: int, len: nat) returns (result: Result<seq<byte>>)
    ensures result.Success? <==> 0 <= n < Pow256(len)
    ensures result.Failure? ==> result.error == EncodingOverflow
    ensures result.Success? ==> result.value == BeBytes(n, len) && BeValue(result.value) == n
  {
    var r := n;
    var buff := new byte[len](_ => 0);
    var o := len;
    Pow256Chunks();
    while o > 0
      invariant 0 <= o <= len && buff.Length == len
      invariant buff[o..] == BeBytes(n, len - o)
      invariant r == n / Pow256(len - o)
    {
      ghost var done := len - o;
      if o - 4 >= 0 {
        o := o - 4;
        BeEncodeStep(n, done, 4, r, 0x1_0000_0000);
        WriteUIntBE(buff, r % 0x1_0000_0000, o, 4);
        r := r / 0x1_0000_0000;
      } else if o - 2 >= 0 {
        o := o - 2;
        BeEncodeStep(n, done, 2, r, 0x1_0000);
        WriteUIntBE(buff, r % 0x1_0000, o, 2);
        r := r / 0x1_0000;
      } else {
        o := o - 1;
        BeEncodeStep(n, done, 1, r, 0x100);
        WriteUIntBE(buff, r % 0x100, o, 1);
        r := r / 0x100;
      }
    }
    EncodingFits(n, len);
    if r != 0 {
      return Failure(EncodingOverflow);
    }
    assert buff[o..] == buff[..];
    return Success(buff[..]);
  }

  /** leInt2Buff: writes n into a fresh zeroed buffer of len bytes from its
      start in chunks of 4, 2 or 1 bytes; what is left of n must be 0 at
      the end. */
  method LeInt2Buff(n: int, len: nat) returns (result: Result<seq<byte>>)
    ensures result.Success? <==> 0 <= n < Pow256(len)
    ensures result.Failure? ==> result.error == EncodingOverflow
    ensures result.Success? ==> result.value == LeBytes(n, len) && LeValue(result.value) == n
  {
    var r := n;
    var buff := new byte[len](_ => 0);
    var o := 0;
    Pow256Chunks();
    while o < len
      invariant 0 <= o <= len && buff.Length == len
      invariant buff[..o] == LeBytes(n, o)
      invariant r == n / Pow256(o)
    {
      ghost var done := o;
      if o + 4 <= len {
        LeEncodeStep(n, done, 4, r, 0x1_0000_0000);
        WriteUIntLE(buff, r % 0x1_0000_0000, o, 4);
        o := o + 4;
        r := r / 0x1_0000_0000;
      } else if o + 2 <= len {
        LeEncodeStep(n, done, 2, r, 0x1_0000);
        WriteUIntLE(buff, r % 0x1_0000, o, 2);
        o := o + 2;
        r := r / 0x1_0000;
      } else {
        LeEncodeStep(n, done, 1, r, 0x100);
        WriteUIntLE(buff, r % 0x100, o, 1);
        o := o + 1;
        r := r / 0x100;
      }
    }
    EncodingFits(n, len);
    if r != 0 {
      return Failure(EncodingOverflow);
    }
    assert buff[..o] == buff[..];
    return Success(buff[..]);
  }

  /** Decoding what the encoder wrote gives the number back, for every
      number the encoder accepts. */
  method BeRoundTrip(n: nat, len: nat) returns (m: nat)
    requires n < Pow256(len)
    ensures m == n
  {
    var encoded := BeInt2Buff(n, len);
    var bytes := encoded.value;
    var buff := new byte[len](i => if 0 <= i < |bytes| then bytes[i] else 0);
    assert buff[..] == bytes;
    m := BeBuff2Int(buff);
  }

  method LeRoundTrip(n: nat, len: nat) returns (m: nat)
    requires n < Pow256(len)
    ensures m == n
  {
    var encoded := LeInt2Buff(n, len);
    var bytes := encoded.value;
    var buff := new byte[len](i => if 0 <= i < |bytes| then bytes[i] else 0);
    assert buff[..] == bytes;
    m := LeBuff2Int(buff);
  }
}
