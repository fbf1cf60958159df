/** The compression steps of Makalah.py chained with the matching
    decompressor: pixels, runs, records, and back. */
module Pipeline {
  import opened Common
  import opened RunLength
  import Binary
  import Fibonacci
  import Huffman
  import Decompress

  /** `rle_encoded_list`: each run becomes
      `(decimal_to_binary(val), fibonacciEncoding(count))`. */
  method EncodeFibonacciRows(table: Fibonacci.FibTable, rle: seq<Run>) returns (rows: seq<Decompress.Row>)
    requires table.Valid()
    requires forall i :: 0 <= i < |rle| ==> rle[i].count < Fibonacci.Fib(Fibonacci.TableSize - 1)
    modifies table.fib
    ensures table.Valid()
    ensures |rows| == |rle|
    ensures forall i :: 0 <= i < |rle| ==> rows[i].0 == Binary.DecimalToBinary(rle[i].value)
    ensures forall i :: 0 <= i < |rle| ==> Fibonacci.FibonacciValue(rows[i].1) == rle[i].count
    ensures forall i :: 0 <= i < |rle| && rle[i].count >= 1 ==> Fibonacci.IsFibonacciCodeword(rows[i].1)
  {
    rows := [];
    for i := 0 to |rle|
      invariant table.Valid()
      invariant |rows| == i
      invariant forall j :: 0 <= j < i ==> rows[j].0 == Binary.DecimalToBinary(rle[j].value)
      invariant forall j :: 0 <= j < i ==> Fibonacci.FibonacciValue(rows[j].1) == rle[j].count
      invariant forall j :: 0 <= j < i && rle[j].count >= 1 ==> Fibonacci.IsFibonacciCodeword(rows[j].1)
    {
      var code := table.FibonacciEncoding(rle[i].count);
      if rle[i].count == 0 {
        assert Fibonacci.FibonacciValue(code) == 0 by {
          assert code == "*1";
          assert Fibonacci.FibSum(code, 1) == Fibonacci.FibSum(code, 0);
        }
      }
      rows := rows + [(Binary.DecimalToBinary(rle[i].value), code)];
    }
  }

  /** RLE, then Fibonacci records, then `decompress_fibonacci_csv`'s row
      loop: the pixels come back. The image must have fewer than `fib[99]`
      pixels so that no run outgrows the 100-slot table. */
  method FibonacciRoundTrip(table: Fibonacci.FibTable, pixels: seq<Sample>) returns (decompressed: Option<seq<nat>>)
    requires table.Valid()
    requires 0 < |pixels| < Fibonacci.Fib(Fibonacci.TableSize - 1)
    modifies table.fib
    ensures decompressed == Some(pixels)
  {
    var rle := RunLengthEncode(pixels);
    forall i | 0 <= i < |rle| ensures rle[i].count < Fibonacci.Fib(Fibonacci.TableSize - 1) {
      CountAtMostTotal(rle, i);
    }
    var rows := EncodeFibonacciRows(table, rle);
    Decompress.FibonacciRowsRoundTrip(rle, rows);
    decompressed := Decompress.DecompressFibonacciCsv(rows);
  }

  /** The Huffman steps of Makalah.py (frequencies, tree, codes, the
      shadowing `huffman_encode_rle`) on the runs of `pixels`. The table is
      prefix-free; decoding the records with the inverted table and base-2
      counts gives the pixels back. */
  method HuffmanRoundTrip(pixels: seq<Sample>) returns (rle: seq<Run>, codes: map<Sample, string>, rows: seq<Decompress.Row>)
    requires |pixels| > 0
    ensures MaximalRuns(rle) && Expand(rle) == pixels
    ensures Huffman.PrefixFree(codes)
    ensures |rows| == |rle|
    ensures forall i :: 0 <= i < |rle| ==> rle[i].value in codes && rows[i].0 == codes[rle[i].value]
    ensures Decompress.DecodeHuffmanRows(rows, Huffman.ReverseCodes(codes), 2) == Some(pixels)
  {
    rle := RunLengthEncode(pixels);
    var freq := Huffman.CountGrayFrequencies(rle);
    Huffman.ValueSetMembers(rle);
    assert rle[0].value in freq;
    var tree := Huffman.BuildHuffmanTree(freq);
    codes := Huffman.GenerateHuffmanCodes(tree);
    Huffman.CodeTableFor(tree.value, freq);
    Decompress.HuffmanCsvRoundTrip(rle, freq, tree.value);
    rows := Huffman.HuffmanEncodeRleBinary(rle, codes).value;
  }
}
