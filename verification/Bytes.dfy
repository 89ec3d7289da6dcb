/** Little-endian numbers in bytes, and records made of them. */
module Bytes {
  type Byte = b: nat | b < 256

  /** The little-endian number in `n` bytes at `off`. */
  function Le(data: seq<Byte>, off: nat, n: nat): nat
    requires off + n <= |data|
    decreases n
  {
    if n == 0 then 0 else data[off] + 256 * Le(data, off + 1, n - 1)
  }

  /** The `n` low bytes of `v`, the lowest first. */
  function LeBytes(v: nat, n: nat): (r: seq<Byte>)
    ensures |r| == n
  {
    if n == 0 then [] else [v % 256] + LeBytes(v / 256, n - 1)
  }

  /** One more than the greatest number in `n` bytes. */
  function Limit(n: nat): (r: nat)
    ensures r > 0
  {
    if n == 0 then 1 else 256 * Limit(n - 1)
  }

  function LittleEndian(b0: nat, b1: nat, b2: nat, b3: nat): nat {
    b0 + 0x100 * b1 + 0x1_0000 * b2 + 0x100_0000 * b3
  }

  /** The numbers of two, four and eight bytes, written out. */
  lemma LeWritten(data: seq<Byte>, off: nat)
    ensures off + 2 <= |data| ==> Le(data, off, 2) == LittleEndian(data[off], data[off + 1], 0, 0)
    ensures off + 4 <= |data| ==> Le(data, off, 4) == LittleEndian(data[off], data[off + 1], data[off + 2], data[off + 3])
    ensures off + 8 <= |data| ==> Le(data, off, 8) == Le(data, off, 4) + 0x1_0000_0000 * Le(data, off + 4, 4)
  {
    if off + 8 <= |data| {
      assert Le(data, off, 8) == data[off] + 0x100 * Le(data, off + 1, 7);
      assert Le(data, off + 1, 7) == data[off + 1] + 0x100 * Le(data, off + 2, 6);
      assert Le(data, off + 2, 6) == data[off + 2] + 0x100 * Le(data, off + 3, 5);
      assert Le(data, off + 3, 5) == data[off + 3] + 0x100 * Le(data, off + 4, 4);
    }
    if off + 4 <= |data| {
      assert Le(data, off + 1, 3) == data[off + 1] + 0x100 * Le(data, off + 2, 2);
      assert Le(data, off + 3, 1) == data[off + 3];
    }
  }

  lemma Limits()
    ensures Limit(1) == 0x100 && Limit(2) == 0x1_0000 && Limit(4) == 0x1_0000_0000 && Limit(8) == 0x1_0000_0000_0000_0000
  {
    assert Limit(3) == 0x100_0000 && Limit(5) == 0x100_0000_0000;
    assert Limit(6) == 0x1_0000_0000_0000 && Limit(7) == 0x100_0000_0000_0000;
  }

  /** Reading what was written. */
  lemma {:induction false} LeInverts(data: seq<Byte>, off: nat, n: nat, v: nat)
    requires off + n <= |data| && data[off..off + n] == LeBytes(v, n) && v < Limit(n)
    ensures Le(data, off, n) == v
    decreases n
  {
    if n > 0 {
      assert data[off] == data[off..off + n][0] == v % 256;
      assert data[off + 1..off + n] == data[off..off + n][1..] == LeBytes(v / 256, n - 1);
      LeInverts(data, off + 1, n - 1, v / 256);
    }
  }

  /** The number tells the bytes. */
  lemma {:induction false} LeTells(x: seq<Byte>, i: nat, y: seq<Byte>, j: nat, n: nat)
    requires i + n <= |x| && j + n <= |y|
    ensures Le(x, i, n) == Le(y, j, n) <==> x[i..i + n] == y[j..j + n]
    decreases n
  {
    if n > 0 {
      LeTells(x, i + 1, y, j + 1, n - 1);
      assert x[i..i + n] == [x[i]] + x[i + 1..i + n];
      assert y[j..j + n] == [y[j]] + y[j + 1..j + n];
      if x[i..i + n] == y[j..j + n] {
        assert x[i] == x[i..i + n][0] && y[j] == y[j..j + n][0];
        assert x[i + 1..i + n] == x[i..i + n][1..] && y[j + 1..j + n] == y[j..j + n][1..];
      }
    }
  }

  // ---- Records ----

  /** A field of a record: its value and its width in bytes. */
  datatype Field = Field(value: nat, width: nat)

  /** Where field `i` begins. */
  function FieldStart(fields: seq<Field>, i: nat): nat
    requires i <= |fields|
  {
    if i == 0 then 0 else FieldStart(fields, i - 1) + fields[i - 1].width
  }

  /** The record in memory: its fields one after the other, without gaps. */
  function Packed(fields: seq<Field>): (r: seq<Byte>)
    ensures |r| == FieldStart(fields, |fields|)
  {
    if fields == [] then []
    else
      var init := fields[..|fields| - 1];
      SameStart(fields, init, |init|);
      Packed(init) + LeBytes(fields[|init|].value, fields[|init|].width)
  }

  lemma {:induction false} SameStart(fields: seq<Field>, init: seq<Field>, i: nat)
    requires i <= |init| <= |fields| && init == fields[..|init|]
    ensures FieldStart(init, i) == FieldStart(fields, i)
    decreases i
  {
    if i > 0 {
      SameStart(fields, init, i - 1);
    }
  }

  /** A record is read back field by field. */
  lemma {:induction false} FieldRead(data: seq<Byte>, off: nat, fields: seq<Field>, i: nat)
    requires i < |fields| && off + |Packed(fields)| <= |data| && data[off..off + |Packed(fields)|] == Packed(fields)
    requires fields[i].value < Limit(fields[i].width)
    ensures off + FieldStart(fields, i) + fields[i].width <= |data|
    ensures Le(data, off + FieldStart(fields, i), fields[i].width) == fields[i].value
    decreases |fields|
  {
    var n := |fields| - 1;
    var init, last := fields[..n], fields[n];
    SameStart(fields, init, n);
    var size := |Packed(init)|;
    Split(data, off, Packed(init), LeBytes(last.value, last.width));
    if i == n {
      LeInverts(data, off + size, last.width, last.value);
    } else {
      FieldRead(data, off, init, i);
      SameStart(fields, init, i);
    }
  }

  lemma Split(data: seq<Byte>, off: nat, x: seq<Byte>, y: seq<Byte>)
    requires off + |x + y| <= |data| && data[off..off + |x + y|] == x + y
    ensures data[off..off + |x|] == x && data[off + |x|..off + |x| + |y|] == y
  {
    assert data[off..off + |x|] == (x + y)[..|x|];
    assert data[off + |x|..off + |x| + |y|] == (x + y)[|x|..];
  }
}
