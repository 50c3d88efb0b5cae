/** Bytes, 64-bit machine words and their little-endian layout, and the results of fallible calls. */
module Words {

  type Byte = b: int | 0 <= b < 256

  const WORD_LIMIT: nat := 0x1_0000_0000_0000_0000

  type Word = w: int | 0 <= w < 0x1_0000_0000_0000_0000

  datatype Option<+T> = None | Some(value: T)

  /** Why a controller call fails. */
  datatype Fault =
    | PtraceFailed
    | TransferFailed
    | NoVdso
    | NoSvc
    | MmapFailed
    | MunmapFailed
    | NotUtf8
    | BadNumber
    | BadPermissions
    | Panic

  datatype Result<+T> = Ok(value: T) | Err(fault: Fault) {
    predicate IsFailure() {
      Err?
    }

    function PropagateFailure<U>(): Result<U>
      requires Err?
    {
      Err(fault)
    }

    function Extract(): T
      requires Ok?
    {
      value
    }
  }

  // ----- little-endian layout -----

  function FromLe(bytes: seq<Byte>): nat {
    if bytes == [] then 0 else bytes[0] + 256 * FromLe(bytes[1..])
  }

  function ToLe(n: nat, k: nat): (bytes: seq<Byte>)
    ensures |bytes| == k
  {
    if k == 0 then [] else [n % 256] + ToLe(n / 256, k - 1)
  }

  lemma {:induction false} ToLeFromLe(bytes: seq<Byte>)
    ensures ToLe(FromLe(bytes), |bytes|) == bytes
  {
    if bytes == [] {
    } else {
      ToLeFromLe(bytes[1..]);
      assert FromLe(bytes) % 256 == bytes[0] && FromLe(bytes) / 256 == FromLe(bytes[1..]);
    }
  }

  function Pow256(k: nat): nat {
    if k == 0 then 1 else 256 * Pow256(k - 1)
  }

  lemma {:induction false} FromLeBound(bytes: seq<Byte>)
    ensures FromLe(bytes) < Pow256(|bytes|)
  {
    if bytes == [] {
    } else {
      FromLeBound(bytes[1..]);
    }
  }

  lemma {:induction false} FromLeToLe(n: nat, k: nat)
    requires n < Pow256(k)
    ensures FromLe(ToLe(n, k)) == n
  {
    if k == 0 {
    } else {
      FromLeToLe(n / 256, k - 1);
      assert ToLe(n, k)[1..] == ToLe(n / 256, k - 1);
    }
  }

  lemma EightBytesFillAWord()
    ensures Pow256(8) == WORD_LIMIT
  {
    assert Pow256(4) == 0x1_0000_0000;
    assert Pow256(8) == 256 * (256 * (256 * (256 * Pow256(4))));
  }

  /** The word that eight bytes in memory hold. */
  function WordOf(bytes: seq<Byte>): (w: Word)
    requires |bytes| == 8
    ensures ToLe(w, 8) == bytes
  {
    FromLeBound(bytes);
    EightBytesFillAWord();
    ToLeFromLe(bytes);
    FromLe(bytes)
  }

  lemma WordOfToLe(w: Word)
    ensures WordOf(ToLe(w, 8)) == w
  {
    EightBytesFillAWord();
    FromLeToLe(w, 8);
  }

  /** Replacing the low byte of a word replaces the first of its eight bytes and no other. */
  lemma LowByteIsFirst(w: Word, b: Byte)
    ensures w - w % 256 + b < WORD_LIMIT
    ensures ToLe(w - w % 256 + b, 8) == ToLe(w, 8)[0 := b]
  {
    var v := w - w % 256 + b;
    assert v % 256 == b && v / 256 == w / 256;
  }
}
