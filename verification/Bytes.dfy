/** Bytes, big-endian numbers and the length-prefixed fields that every wire
    format of the program is made of. A program string is a sequence of bytes. */
module Bytes {

  type Byte = b: int | 0 <= b < 256

  /** A byte slice or a string. */
  type Text = seq<Byte>

  datatype Option<+T> = None | Some(value: T)

  /** The bytes of an ASCII literal. */
  function Ascii(s: string): (t: Text)
    ensures |t| == |s|
    ensures forall i | 0 <= i < |s| && s[i] < 128 as char :: t[i] == s[i] as int
  {
    seq(|s|, i requires 0 <= i < |s| => (s[i] as int) % 256)
  }

  function U16(n: int): (b: Text)
    requires 0 <= n < 0x1_0000
    ensures |b| == 2 && (b[0] as int) * 256 + (b[1] as int) == n
  {
    [n / 256, n % 256]
  }

  function U16At(s: Text, i: int): (n: int)
    requires 0 <= i && i + 2 <= |s|
    ensures 0 <= n < 0x1_0000
    ensures U16(n) == s[i..i + 2]
  {
    (s[i] as int) * 256 + (s[i + 1] as int)
  }

  function Pow256(width: nat): (p: nat)
    ensures p >= 1
  {
    if width == 0 then 1 else 256 * Pow256(width - 1)
  }

  /** The low `width` bytes of `n`, most significant first. */
  function BigEndian(n: nat, width: nat): (b: Text)
    ensures |b| == width
  {
    if width == 0 then [] else BigEndian(n / 256, width - 1) + [n % 256]
  }

  lemma {:induction false} BigEndianInjective(n: nat, m: nat, width: nat)
    requires n < Pow256(width) && m < Pow256(width)
    requires BigEndian(n, width) == BigEndian(m, width)
    ensures n == m
  {
    if width > 0 {
      var a, b := BigEndian(n / 256, width - 1), BigEndian(m / 256, width - 1);
      assert a == (a + [n % 256])[..width - 1] == (b + [m % 256])[..width - 1] == b;
      assert n % 256 == (a + [n % 256])[width - 1] == (b + [m % 256])[width - 1] == m % 256;
      BigEndianInjective(n / 256, m / 256, width - 1);
    }
  }

  /** A field behind a two-byte length. */
  function Field16(f: Text): (b: Text)
    requires |f| < 0x1_0000
    ensures |b| == 2 + |f|
  {
    U16(|f|) + f
  }

  /** A field behind a one-byte length. */
  function Field8(f: Text): (b: Text)
    requires |f| < 256
    ensures |b| == 1 + |f|
  {
    [|f|] + f
  }

  lemma Assoc(a: Text, b: Text, c: Text)
    ensures (a + b) + c == a + (b + c)
  {
  }

  /** The bytes x stand in p at offset i. */
  predicate Holds(p: Text, i: nat, x: Text) {
    i + |x| <= |p| && p[i..i + |x|] == x
  }

  lemma HoldsBoth(p: Text, i: nat, x: Text, y: Text)
    ensures Holds(p, i, x + y) <==> Holds(p, i, x) && Holds(p, i + |x|, y)
  {
    if Holds(p, i, x + y) {
      assert x == (x + y)[..|x|] && y == (x + y)[|x|..];
    }
  }

  /** Reads the field at an offset if its length is in min..max, and says where it
      ends. Every read is behind a length check. */
  function FieldAt(p: Text, offset: nat, min: nat, max: nat): (r: Option<(Text, nat)>)
    ensures r.Some? ==> offset + 2 <= r.value.1 <= |p|
  {
    if |p| < offset + 2 then None
    else
      var n := U16At(p, offset);
      if n < min || n > max || |p| < offset + 2 + n then None
      else Some((p[offset + 2..offset + 2 + n], offset + 2 + n))
  }

  lemma FieldAtExact(p: Text, offset: nat, min: nat, max: nat, f: Text, next: nat)
    ensures FieldAt(p, offset, min, max) == Some((f, next)) <==>
      min <= |f| <= max && |f| < 0x1_0000 && next == offset + 2 + |f| && Holds(p, offset, Field16(f))
  {
    if |f| < 0x1_0000 {
      HoldsBoth(p, offset, U16(|f|), f);
    }
  }

  function Field8At(p: Text, offset: nat, min: nat, max: nat): (r: Option<(Text, nat)>)
    ensures r.Some? ==> offset + 1 <= r.value.1 <= |p|
  {
    if |p| < offset + 1 then None
    else
      var n := p[offset];
      if n < min || n > max || |p| < offset + 1 + n then None
      else Some((p[offset + 1..offset + 1 + n], offset + 1 + n))
  }

  lemma Field8AtExact(p: Text, offset: nat, min: nat, max: nat, f: Text, next: nat)
    ensures Field8At(p, offset, min, max) == Some((f, next)) <==>
      min <= |f| <= max && |f| < 256 && next == offset + 1 + |f| && Holds(p, offset, Field8(f))
  {
    if |f| < 256 {
      HoldsBoth(p, offset, [|f|], f);
    }
  }

  // ---------- writing in place ----------

  method CopyAt(a: array<Byte>, offset: nat, src: Text)
    requires offset + |src| <= a.Length
    modifies a
    ensures a[..offset + |src|] == old(a[..offset]) + src
    ensures forall k | offset + |src| <= k < a.Length :: a[k] == old(a[k])
  {
    for i := 0 to |src|
      invariant a[..offset] == old(a[..offset])
      invariant forall k | 0 <= k < i :: a[offset + k] == src[k]
      invariant forall k | offset + |src| <= k < a.Length :: a[k] == old(a[k])
    {
      a[offset + i] := src[i];
    }
  }

  /** Writes the length and then the bytes, and says where the field ends. */
  method PutField16(a: array<Byte>, offset: nat, f: Text) returns (next: nat)
    requires |f| < 0x1_0000 && offset + 2 + |f| <= a.Length
    modifies a
    ensures next == offset + 2 + |f|
    ensures a[..next] == old(a[..offset]) + Field16(f)
    ensures forall k | next <= k < a.Length :: a[k] == old(a[k])
  {
    CopyAt(a, offset, U16(|f|));
    CopyAt(a, offset + 2, f);
    next := offset + 2 + |f|;
    Assoc(old(a[..offset]), U16(|f|), f);
  }
}
