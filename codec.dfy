/** Little-endian integer fields, as Python's `struct` module packs them with a `<` format. */
module ByteCodec {

  /** One byte of a file. */
  newtype byte = b: int | 0 <= b < 256

  function Pow256(n: nat): (p: nat)
    ensures p >= 1
  {
    if n == 0 then 1 else 256 * Pow256(n - 1)
  }

  function Pow2(n: nat): (p: nat)
    ensures p >= 1
  {
    if n == 0 then 1 else 2 * Pow2(n - 1)
  }

  /** The unsigned value of `s`, least significant byte first. */
  function LittleEndian(s: seq<byte>): (v: nat)
    ensures v < Pow256(|s|)
  {
    if s == [] then 0 else s[0] as nat + 256 * LittleEndian(s[1..])
  }

  /** The `n` bytes of `v` modulo 256^n, least significant first. */
  function ToLittleEndian(v: nat, n: nat): (s: seq<byte>)
    ensures |s| == n
  {
    if n == 0 then [] else [(v % 256) as byte] + ToLittleEndian(v / 256, n - 1)
  }

  lemma {:induction false} DecodeEncode(v: nat, n: nat)
    requires v < Pow256(n)
    ensures LittleEndian(ToLittleEndian(v, n)) == v
  {
    if n > 0 {
      var q, r := v / 256, v % 256;
      assert q < Pow256(n - 1) && v == 256 * q + r by { DivBound(v, Pow256(n - 1)); }
      DecodeEncode(q, n - 1);
      var s := ToLittleEndian(v, n);
      assert s == [r as byte] + ToLittleEndian(q, n - 1);
      assert s[0] as nat == r && s[1..] == ToLittleEndian(q, n - 1);
    }
  }

  lemma {:induction false} EncodeDecode(s: seq<byte>)
    ensures ToLittleEndian(LittleEndian(s), |s|) == s
  {
    if s != [] {
      var v := LittleEndian(s);
      var b, rest := s[0] as nat, LittleEndian(s[1..]);
      DivMod256(b, rest);
      EncodeDecode(s[1..]);
      assert ToLittleEndian(v, |s|) == [b as byte] + ToLittleEndian(rest, |s| - 1);
    }
  }

  lemma DivBound(v: nat, p: nat)
    requires v < 256 * p
    ensures v / 256 < p && v == 256 * (v / 256) + v % 256
  {
  }

  lemma DivMod256(b: nat, rest: nat)
    requires b < 256
    ensures (b + 256 * rest) % 256 == b && (b + 256 * rest) / 256 == rest
  {
    var v := b + 256 * rest;
    var q, r := v / 256, v % 256;
    assert 256 * (q - rest) == b - r;
  }

  /** Total byte width of a record layout. */
  function Sum(widths: seq<nat>): nat
  {
    if widths == [] then 0 else widths[0] + Sum(widths[1..])
  }

  /** `count` fields of `width` bytes, one repeated letter of a struct format (`4H`). */
  function Repeat(width: nat, count: nat): (ws: seq<nat>)
    ensures |ws| == count && forall i :: 0 <= i < count ==> ws[i] == width
  {
    if count == 0 then [] else [width] + Repeat(width, count - 1)
  }

  lemma {:induction false} SumAppend(a: seq<nat>, b: seq<nat>)
    ensures Sum(a + b) == Sum(a) + Sum(b)
  {
    if a != [] {
      assert (a + b)[1..] == a[1..] + b;
      SumAppend(a[1..], b);
    } else {
      assert a + b == b;
    }
  }

  lemma {:induction false} SumRepeat(width: nat, count: nat)
    ensures Sum(Repeat(width, count)) == width * count
  {
    if count > 0 {
      assert Repeat(width, count)[1..] == Repeat(width, count - 1);
      SumRepeat(width, count - 1);
    }
  }

  /** Every field value fits its width. */
  predicate Fits(widths: seq<nat>, fields: seq<nat>)
  {
    |fields| == |widths| && forall i :: 0 <= i < |fields| ==> fields[i] < Pow256(widths[i])
  }

  /** `struct.unpack` of a record of unsigned little-endian fields. */
  function Unpack(widths: seq<nat>, data: seq<byte>): (fields: seq<nat>)
    requires |data| == Sum(widths)
    ensures Fits(widths, fields)
  {
    if widths == [] then []
    else [LittleEndian(data[..widths[0]])] + Unpack(widths[1..], data[widths[0]..])
  }

  /** `struct.pack` of the same layout, the inverse of `Unpack`. */
  function Pack(widths: seq<nat>, fields: seq<nat>): (data: seq<byte>)
    requires |fields| == |widths|
    ensures |data| == Sum(widths)
  {
    if widths == [] then []
    else ToLittleEndian(fields[0], widths[0]) + Pack(widths[1..], fields[1..])
  }

  lemma {:induction false} UnpackPack(widths: seq<nat>, fields: seq<nat>)
    requires Fits(widths, fields)
    ensures Unpack(widths, Pack(widths, fields)) == fields
  {
    if widths != [] {
      var data := Pack(widths, fields);
      var head := ToLittleEndian(fields[0], widths[0]);
      assert data[..widths[0]] == head;
      assert data[widths[0]..] == Pack(widths[1..], fields[1..]);
      DecodeEncode(fields[0], widths[0]);
      assert Fits(widths[1..], fields[1..]) by {
        forall i | 0 <= i < |fields| - 1 ensures fields[1..][i] < Pow256(widths[1..][i]) {
          assert fields[1..][i] == fields[i + 1];
        }
      }
      UnpackPack(widths[1..], fields[1..]);
    }
  }

  lemma {:induction false} PackUnpack(widths: seq<nat>, data: seq<byte>)
    requires |data| == Sum(widths)
    ensures Pack(widths, Unpack(widths, data)) == data
  {
    if widths != [] {
      var fields := Unpack(widths, data);
      EncodeDecode(data[..widths[0]]);
      PackUnpack(widths[1..], data[widths[0]..]);
      assert data == data[..widths[0]] + data[widths[0]..];
    }
  }
}
