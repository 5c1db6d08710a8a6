/**
 `leak_aligned` (firmware/runtime/src/device_tree.rs): copying bytes into an allocation of `u64` words,
 which are native-endian only on their way through; `big` says which endianness that is.
 */
module AlignedCopy {

  const WORD: nat := 8

  type Byte = b: nat | b < 256

  function LittleEndian(bytes: seq<Byte>): nat {
    if bytes == [] then 0 else bytes[0] + 256 * LittleEndian(bytes[1..])
  }

  /** The `n` low bytes of a word, lowest first. */
  function Digits(word: nat, n: nat): (bytes: seq<Byte>)
    ensures |bytes| == n
  {
    if n == 0 then [] else [word % 256] + Digits(word / 256, n - 1)
  }

  function Reversed(bytes: seq<Byte>): (r: seq<Byte>)
    ensures |r| == |bytes|
    ensures forall i | 0 <= i < |r| :: r[i] == bytes[|bytes| - 1 - i]
  {
    if bytes == [] then [] else Reversed(bytes[1..]) + [bytes[0]]
  }

  /** `u64::from_ne_bytes` */
  function FromNative(big: bool, bytes: seq<Byte>): nat {
    LittleEndian(if big then Reversed(bytes) else bytes)
  }

  /** How a word lies in memory. */
  function InMemory(big: bool, word: nat): (bytes: seq<Byte>)
    ensures |bytes| == WORD
  {
    if big then Reversed(Digits(word, WORD)) else Digits(word, WORD)
  }

  /** How a vector of words lies in memory. */
  function Image(big: bool, words: seq<nat>): (bytes: seq<Byte>)
    ensures |bytes| == WORD * |words|
  {
    if words == [] then []
    else Image(big, words[..|words| - 1]) + InMemory(big, words[|words| - 1])
  }

  lemma {:induction false} DigitsOfWord(bytes: seq<Byte>)
    ensures Digits(LittleEndian(bytes), |bytes|) == bytes
  {
    if bytes != [] {
      DigitsOfWord(bytes[1..]);
      assert LittleEndian(bytes) / 256 == LittleEndian(bytes[1..]);
    }
  }

  /** Eight bytes read as a word lie in memory as they were. */
  lemma NativeRoundTrip(big: bool, bytes: seq<Byte>)
    requires |bytes| == WORD
    ensures InMemory(big, FromNative(big, bytes)) == bytes
  {
    if big {
      DigitsOfWord(Reversed(bytes));
      assert Reversed(Reversed(bytes)) == bytes;
    } else {
      DigitsOfWord(bytes);
    }
  }

  /** A chunk of at most eight bytes, filled up with zeros. */
  function Padded(chunk: seq<Byte>): (r: seq<Byte>)
    requires |chunk| <= WORD
    ensures |r| == WORD && chunk <= r
  {
    chunk + seq(WORD - |chunk|, _ => 0)
  }

  /** The word for one more chunk adds that chunk to the image. */
  lemma ImageGrows(big: bool, words: seq<nat>, chunk: seq<Byte>)
    requires |chunk| <= WORD
    ensures Image(big, words + [FromNative(big, Padded(chunk))]) == Image(big, words) + Padded(chunk)
  {
    var longer := words + [FromNative(big, Padded(chunk))];
    NativeRoundTrip(big, Padded(chunk));
    assert longer[..|longer| - 1] == words;
  }

  /**
   On either endianness the allocation holds the bytes in their order, then zeros up to the end of the
   last word, and no word more than needed.
   */
  method LeakAligned(big: bool, bytes: seq<Byte>) returns (words: seq<nat>)
    ensures |bytes| <= WORD * |words| < |bytes| + WORD
    ensures bytes <= Image(big, words)
    ensures forall k | |bytes| <= k < WORD * |words| :: Image(big, words)[k] == 0
  {
    words := [];
    var start := 0;
    while start < |bytes|
      invariant start == WORD * |words| && start < |bytes| + WORD
      invariant start <= |bytes| ==> Image(big, words) == bytes[..start]
      invariant start > |bytes| ==> bytes <= Image(big, words)
      invariant forall k | |bytes| <= k < start :: Image(big, words)[k] == 0
    {
      var end := if start + WORD <= |bytes| then start + WORD else |bytes|;
      var encoded := Padded(bytes[start..end]);
      ImageGrows(big, words, bytes[start..end]);
      words := words + [FromNative(big, encoded)];
      start := start + WORD;
    }
  }
}
