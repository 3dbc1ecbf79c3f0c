/** trivial_compression.py: a gene of nucleotides A, C, G, T packed two
    bits per nucleotide into one integer, behind a sentinel 1 bit. */
module Compression {
  import opened Wrappers
  import opened Collections
  import opened Bits

  /** Python's `str.upper` on ASCII letters; every other character is
      left as it is. */
  function UpperChar(c: char): char {
    if 'a' <= c <= 'z' then (c as int - 'a' as int + 'A' as int) as char else c
  }

  function Upper(s: string): (r: string)
    ensures |r| == |s| && forall i :: 0 <= i < |s| ==> r[i] == UpperChar(s[i])
  {
    seq(|s|, i requires 0 <= i < |s| => UpperChar(s[i]))
  }

  predicate IsNucleotide(c: char) {
    c == 'A' || c == 'C' || c == 'G' || c == 'T'
  }

  /** The two bits `_compress` ors in for a nucleotide: 00, 01, 10, 11. */
  function Code(c: char): nat
    requires IsNucleotide(c)
  {
    match c
    case 'A' => 0
    case 'C' => 1
    case 'G' => 2
    case 'T' => 3
  }

  /** The nucleotide `decompress` appends for two bits. The source's last
      branch, raising `ValueError` for any other value, cannot be reached
      because `& 0b11` leaves a value below four. */
  function Letter(bits: nat): char {
    if bits == 0 then 'A'
    else if bits == 1 then 'C'
    else if bits == 2 then 'G'
    else 'T'
  }

  lemma {:induction false} LetterOfCode(c: char)
    requires IsNucleotide(c)
    ensures Code(c) < 4 && Letter(Code(c)) == c
  {
  }

  /** The loop of `_compress` over an upper-cased gene: start from the
      sentinel 1, and for each nucleotide shift left two bits and or in its
      code. Any other character raises `ValueError`. */
  function Pack(s: string): (r: Result<nat>)
    ensures r.Success? <==> forall i :: 0 <= i < |s| ==> IsNucleotide(s[i])
    ensures r.Failure? ==> r.error == ValueError
    ensures r.Success? ==> Pow(4, |s|) <= r.value < 2 * Pow(4, |s|)
  {
    if |s| == 0 then Success(1)
    else
      var c := s[|s| - 1];
      match Pack(s[..|s| - 1])
      case Failure(e) => Failure(e)
      case Success(v) =>
        if IsNucleotide(c) then Success(4 * v + Code(c)) else Failure(ValueError)
  }

  /** `_compress`: the bit string of `gene.upper()`. It has the sentinel bit
      and two bits per nucleotide, so `bit_length() == 2 * len(gene) + 1`;
      the empty gene gives the sentinel alone. */
  function Compress(gene: string): (r: Result<nat>)
    ensures r.Success? <==> forall i :: 0 <= i < |gene| ==> IsNucleotide(UpperChar(gene[i]))
    ensures r.Failure? ==> r.error == ValueError
    ensures r.Success? ==> BitLength(r.value) == 2 * |gene| + 1
    ensures |gene| == 0 ==> r == Success(1)
  {
    var r := Pack(Upper(gene));
    if r.Success? then
      SentinelBitLength(r.value, |gene|);
      r
    else r
  }

  /** A number between `4^n` and `2 * 4^n` has `2n + 1` bits. */
  lemma {:induction false} SentinelBitLength(v: nat, n: nat)
    requires Pow(4, n) <= v < 2 * Pow(4, n)
    ensures BitLength(v) == 2 * n + 1
  {
    assert Pow(2, 2) == 4;
    PowOfPow(2, 2, n);
    assert Pow(2, 2 * n + 1) == 2 * Pow(2, 2 * n);
    BitLengthOf(v, 2 * n + 1);
  }

  /** Python's `b >> i` on a non-negative integer: halve `i` times. */
  function Shr(b: nat, i: nat): nat {
    if i == 0 then b else Shr(b, i - 1) / 2
  }

  lemma {:induction false} ShrAdd(b: nat, i: nat, j: nat)
    ensures Shr(b, i + j) == Shr(Shr(b, i), j)
  {
    if j > 0 {
      ShrAdd(b, i, j - 1);
    }
  }

  lemma Quarter(w: nat, c: nat)
    requires c < 4
    ensures Shr(4 * w + c, 2) == w
  {
    var x := 4 * w + c;
    assert Shr(x, 0) == x;
    assert Shr(x, 1) == x / 2;
    assert Shr(x, 2) == x / 2 / 2;
  }

  /** Shifting a packed gene right by `2k` bits leaves the code of the
      `k`-th nucleotide from the end in the low two bits. */
  lemma {:induction false} PackDigits(s: string, k: nat)
    requires Pack(s).Success? && k < |s|
    ensures IsNucleotide(s[|s| - 1 - k])
    ensures Shr(Pack(s).value, 2 * k) % 4 == Code(s[|s| - 1 - k])
  {
    var t := s[..|s| - 1];
    var v := Pack(s).value;
    var c := s[|s| - 1];
    assert v == 4 * Pack(t).value + Code(c);
    if k > 0 {
      ShrAdd(v, 2, 2 * (k - 1));
      Quarter(Pack(t).value, Code(c));
      PackDigits(t, k - 1);
      assert t[|t| - 1 - (k - 1)] == s[|s| - 1 - k];
    }
  }

  /** `decompress`: read the bit string two bits at a time from the low end
      up to, not including, the sentinel, then reverse. The result has one
      nucleotide per two bits below the top bit, the first one read from
      the highest pair. */
  method Decompress(bitString: nat) returns (gene: string)
    ensures |gene| == BitLength(bitString) / 2
    ensures forall j :: 0 <= j < |gene| ==> gene[j] == Letter(Shr(bitString, 2 * (|gene| - 1 - j)) % 4)
  {
    var bl := BitLength(bitString);
    var backwards: string := [];
    var i := 0;
    while i + 1 < bl
      invariant 0 <= i <= bl && i % 2 == 0
      invariant |backwards| == i / 2
      invariant forall k :: 0 <= k < |backwards| ==> backwards[k] == Letter(Shr(bitString, 2 * k) % 4)
    {
      var bits := Shr(bitString, i) % 4;
      backwards := backwards + [Letter(bits)];
      i := i + 2;
    }
    gene := Reverse(backwards);
  }

  /** Compressing then decompressing gives back the upper-cased gene, as
      the demo checks; an invalid gene fails in `_compress` with
      `ValueError`. */
  method RoundTrip(gene: string) returns (r: Result<string>)
    ensures r.Success? <==> forall i :: 0 <= i < |gene| ==> IsNucleotide(UpperChar(gene[i]))
    ensures r.Failure? ==> r.error == ValueError
    ensures r.Success? ==> r.value == Upper(gene)
  {
    var packed := Compress(gene);
    if packed.Failure? {
      return Failure(packed.error);
    }
    var decoded := Decompress(packed.value);
    Unpacks(gene, packed.value, decoded);
    return Success(decoded);
  }

  /** The nucleotides `decompress` reads back from a packed gene are the
      gene's, upper-cased. */
  lemma {:induction false} Unpacks(gene: string, v: nat, decoded: string)
    requires Compress(gene) == Success(v)
    requires |decoded| == BitLength(v) / 2
    requires forall j :: 0 <= j < |decoded| ==> decoded[j] == Letter(Shr(v, 2 * (|decoded| - 1 - j)) % 4)
    ensures decoded == Upper(gene)
  {
    var s := Upper(gene);
    assert |decoded| == |s|;
    forall j | 0 <= j < |s| ensures decoded[j] == s[j] {
      PackDigits(s, |s| - 1 - j);
      LetterOfCode(s[j]);
    }
  }
}
