/**
 * The padding half of package encrypt: PKCS #7 padding, as defined in section 6.3 of
 * RFC 5652, applied before AES-CBC encryption and removed after decryption.
 */
module Encrypt {
  import opened Wrappers
  import opened Errs

  type byte = x: int | 0 <= x < 256

  /** The number of padding bytes for a message of length `n`: from 1 to a whole block. */
  function PadLength(n: nat, blockSize: int): (p: int)
    requires blockSize >= 1
    ensures 1 <= p <= blockSize
    ensures (n + p) % blockSize == 0
    ensures n % blockSize == 0 ==> p == blockSize
  {
    FillsBlock(n, blockSize);
    blockSize - n % blockSize
  }

  /** Adding the complement of the remainder reaches the next multiple of the block size. */
  lemma FillsBlock(n: nat, b: int)
    requires b >= 1
    ensures (n + (b - n % b)) % b == 0
  {
    var q := n / b;
    assert n == q * b + n % b;
    assert n + (b - n % b) == (q + 1) * b;
    MultipleMod(q + 1, b);
  }

  /** A multiple of `b` leaves no remainder. */
  lemma MultipleMod(k: nat, b: int)
    requires b >= 1
    ensures (k * b) % b == 0
  {
    ModUnique(k * b, b, k, 0);
  }

  /** Euclidean division has one quotient and remainder. */
  lemma ModUnique(x: int, b: int, q: int, r: int)
    requires b >= 1 && 0 <= r < b && x == q * b + r
    ensures x % b == r
  {
    var q2, r2 := x / b, x % b;
    assert x == q2 * b + r2;
    if q > q2 {
      ScaledAtLeast(q - q2, b);
    } else if q < q2 {
      ScaledAtLeast(q2 - q, b);
    }
  }

  lemma ScaledAtLeast(d: int, b: int)
    requires d >= 1 && b >= 1
    ensures d * b >= b
  {
    assert d * b == (d - 1) * b + b;
  }

  /**
   * `pkcs7Padding`: append `p` copies of the byte `p`; Go's `byte(p)` keeps the low
   * eight bits, which matters only for blocks longer than 255 bytes.
   */
  function Pad(data: seq<byte>, blockSize: int): (r: seq<byte>)
    requires blockSize >= 1
    ensures |r| % blockSize == 0
    ensures |r| > |data| && |r| - |data| == PadLength(|data|, blockSize)
    ensures r[..|data|] == data
    ensures forall i :: |data| <= i < |r| ==> r[i] == PadLength(|data|, blockSize) % 256
  {
    var p := PadLength(|data|, blockSize);
    data + seq(p, _ => (p % 256) as byte)
  }

  /**
   * `pkcs7UnPadding`: empty input is an error; otherwise drop as many trailing bytes as
   * the last byte says, without checking the other padding bytes. A last byte larger
   * than the length makes the Go slice expression panic, so callers must not pass one.
   */
  function Unpad(data: seq<byte>): (r: Result<seq<byte>, Error>)
    requires |data| == 0 || data[|data| - 1] <= |data|
    ensures |data| == 0 ==> r == Failure(Str("data is nil"))
    ensures |data| > 0 ==> r.Success? && |r.value| == |data| - data[|data| - 1]
    ensures r.Success? ==> r.value == data[..|r.value|]
  {
    if |data| == 0 then Failure(Str("data is nil"))
    else Success(data[..|data| - data[|data| - 1]])
  }

  /** Padded data always satisfies what `Unpad` needs when the block fits in a byte. */
  lemma PadIsUnpaddable(data: seq<byte>, blockSize: int)
    requires 1 <= blockSize <= 255
    ensures var r := Pad(data, blockSize); |r| > 0 && r[|r| - 1] <= |r|
  {
  }

  /** Round trip: unpadding padded data gives the data back, for every block size that fits a byte. */
  lemma UnpadPad(data: seq<byte>, blockSize: int)
    requires 1 <= blockSize <= 255
    ensures Unpad(Pad(data, blockSize)) == Success(data)
  {
    var r := Pad(data, blockSize);
    var p := PadLength(|data|, blockSize);
    assert r[|r| - 1] == p;
    assert r[..|r| - p] == data;
  }

  /** Unpadding trusts the last byte alone: corrupted padding bytes before it are not detected. */
  lemma UnpadIgnoresOtherPadding()
    ensures Unpad([7, 9, 2]) == Success([7])
  {
    assert [7, 9, 2][..1] == [7];
  }

  /** With a 256-byte block the full-block pad byte wraps to 0, and unpadding removes nothing. */
  lemma PadWrapsAt256()
    ensures var r := Pad([], 256); |r| == 256 && Unpad(r) == Success(r)
  {
    var r := Pad([], 256);
    assert r[255] == 0;
    assert r[..256] == r;
  }
}
