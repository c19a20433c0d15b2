/** Bytes and big-endian 32-bit numbers (`struct.unpack(">I", ...)` and its inverse). */
module ByteCodes {

  type Byte = b: int | 0 <= b < 256

  const TWO_32: int := 0x1_0000_0000

  function U32(b: seq<Byte>): (n: int)
    requires |b| == 4
    ensures 0 <= n < TWO_32
  {
    b[0] as int * 0x100_0000 + b[1] as int * 0x1_0000 + b[2] as int * 0x100 + b[3] as int
  }

  function BE32(n: int): (b: seq<Byte>)
    requires 0 <= n < TWO_32
    ensures |b| == 4
  {
    [n / 0x100_0000, n / 0x1_0000 % 0x100, n / 0x100 % 0x100, n % 0x100]
  }

  lemma ReadBack(n: int)
    requires 0 <= n < TWO_32
    ensures U32(BE32(n)) == n
  {
    var h := n / 0x100;
    var g := h / 0x100;
    assert n / 0x1_0000 == g && n / 0x100_0000 == g / 0x100;
  }

  lemma WriteBack(b: seq<Byte>)
    requires |b| == 4
    ensures BE32(U32(b)) == b
  {
    var n := U32(b);
    assert n / 0x100 == b[0] as int * 0x1_0000 + b[1] as int * 0x100 + b[2] as int;
    assert n / 0x1_0000 == b[0] as int * 0x100 + b[1] as int;
    assert n / 0x100_0000 == b[0] as int;
  }

  /** The first byte that differs decides which number is larger. */
  lemma BigEndianOrder(a: seq<Byte>, b: seq<Byte>, k: nat)
    requires |a| == |b| == 4 && k < 4 && a[..k] == b[..k] && a[k] < b[k]
    ensures U32(a) < U32(b)
  {
    assert forall i | 0 <= i < k :: a[i] == a[..k][i] == b[..k][i] == b[i];
  }
}
