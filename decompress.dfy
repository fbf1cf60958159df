/** The per-row work of `decompress_fibonacci_csv` and
    `decompress_huffman_csv`: each CSV row is decoded to a run and the run is
    expanded onto the output with `decompressed.extend([gray_val] * count)`. */
module Decompress {
  import opened Common
  import opened RunLength
  import Binary
  import Fibonacci
  import Huffman

  /** One CSV data row: its two fields as `csv.DictReader` hands them back. */
  type Row = (string, string)

  /** `decompress_fibonacci_csv` on rows `(Gray_Binary, Count_Fib_Encoded)`:
      the gray is `int(field, 2)`, the count `fibonacci_decoding(field)`.
      A gray field `int` rejects raises `ValueError`, modelled as `None`;
      `fibonacci_decoding` itself never fails. */
  function DecodeFibonacciRows(rows: seq<Row>): (r: Option<seq<nat>>)
    ensures r.Some? <==> forall i :: 0 <= i < |rows| ==> Binary.ParseInt(rows[i].0, 2).Some?
  {
    if rows == [] then Some([])
    else
      var last := rows[|rows| - 1];
      match DecodeFibonacciRows(rows[..|rows| - 1])
      case None => None
      case Some(front) =>
        match Binary.ParseInt(last.0, 2)
        case None => None
        case Some(gray) => Some(front + seq(Fibonacci.FibonacciValue(last.1), _ => gray))
  }

  /** The row loop of `decompress_fibonacci_csv`, stopping at the first row
      whose gray field does not parse. */
  method DecompressFibonacciCsv(rows: seq<Row>) returns (decompressed: Option<seq<nat>>)
    ensures decompressed == DecodeFibonacciRows(rows)
  {
    var out: seq<nat> := [];
    for i := 0 to |rows|
      invariant DecodeFibonacciRows(rows[..i]) == Some(out)
    {
      assert rows[..i + 1][..i] == rows[..i];
      var parsed := Binary.ParseInt(rows[i].0, 2);
      if parsed.None? {
        return None;
      }
      var count := Fibonacci.FibonacciDecoding(rows[i].1);
      out := out + seq(count, _ => parsed.value);
    }
    assert rows[..|rows|] == rows;
    decompressed := Some(out);
  }

  /** Rows that carry each run's value in binary and a Fibonacci codeword of
      its length decode to the expanded runs, i.e. to the original pixels. */
  lemma {:induction false} FibonacciRowsRoundTrip(rle: seq<Run>, rows: seq<Row>)
    requires |rows| == |rle|
    requires forall i :: 0 <= i < |rle| ==> rows[i].0 == Binary.DecimalToBinary(rle[i].value)
    requires forall i :: 0 <= i < |rle| ==> Fibonacci.FibonacciValue(rows[i].1) == rle[i].count
    ensures DecodeFibonacciRows(rows) == Some(Expand(rle))
  {
    if rle != [] {
      var n := |rle| - 1;
      FibonacciRowsRoundTrip(rle[..n], rows[..n]);
      assert Binary.ParseInt(rows[n].0, 2) == Some(rle[n].value as nat);
    }
  }

  /** `decompress_huffman_csv` on rows `(Gray_Huffman_Code, Count)` with the
      count read in `base`: a code missing from the inverted table
      (`KeyError`) or a count `int` rejects (`ValueError`) gives `None`.
      The source reads the count with `int(row['Count'])`, base 10. */
  function DecodeHuffmanRows(rows: seq<Row>, reverse: map<string, Sample>, base: nat): (r: Option<seq<Sample>>)
    requires 2 <= base <= 10
    ensures r.Some? <==> forall i :: 0 <= i < |rows| ==>
      rows[i].0 in reverse && Binary.ParseInt(rows[i].1, base).Some?
  {
    if rows == [] then Some([])
    else
      var last := rows[|rows| - 1];
      match DecodeHuffmanRows(rows[..|rows| - 1], reverse, base)
      case None => None
      case Some(front) =>
        if last.0 !in reverse then None
        else
          match Binary.ParseInt(last.1, base)
          case None => None
          case Some(count) => Some(front + seq(count, _ => reverse[last.0]))
  }

  /** The row loop of `decompress_huffman_csv`, stopping at the first row
      that raises. */
  method DecompressHuffmanCsv(rows: seq<Row>, reverse: map<string, Sample>, base: nat) returns (decompressed: Option<seq<Sample>>)
    requires 2 <= base <= 10
    ensures decompressed == DecodeHuffmanRows(rows, reverse, base)
  {
    var out: seq<Sample> := [];
    for i := 0 to |rows|
      invariant DecodeHuffmanRows(rows[..i], reverse, base) == Some(out)
    {
      assert rows[..i + 1][..i] == rows[..i];
      var (code, countField) := rows[i];
      if code !in reverse {
        return None;
      }
      var gray := reverse[code];
      var count := Binary.ParseInt(countField, base);
      if count.None? {
        return None;
      }
      out := out + seq(count.value, _ => gray);
    }
    assert rows[..|rows|] == rows;
    decompressed := Some(out);
  }

  /** Rows carrying each run's code from an injective table and its length in
      binary decode, through the inverted table and base-2 counts, to the
      expanded runs. */
  lemma {:induction false} HuffmanRowsRoundTrip(rle: seq<Run>, codes: map<Sample, string>, rows: seq<Row>)
    requires Huffman.Injective(codes)
    requires |rows| == |rle|
    requires forall i :: 0 <= i < |rle| ==> rle[i].value in codes && rows[i].0 == codes[rle[i].value]
    requires forall i :: 0 <= i < |rle| ==> Binary.ParseInt(rows[i].1, 2) == Some(rle[i].count)
    ensures DecodeHuffmanRows(rows, Huffman.ReverseCodes(codes), 2) == Some(Expand(rle))
  {
    Huffman.ReverseInverts(codes);
    if rle != [] {
      var n := |rle| - 1;
      HuffmanRowsRoundTrip(rle[..n], codes, rows[..n]);
    }
  }

  /** The record-level Huffman round trip with the counts read in base 2:
      encoding the runs with a table generated from their own frequencies
      succeeds, and decoding the records gives the expanded runs back. */
  lemma HuffmanCsvRoundTrip(rle: seq<Run>, freq: map<Sample, nat>, t: Huffman.Node)
    requires freq.Keys == Huffman.ValueSet(rle)
    requires Huffman.IsHuffmanTreeFor(t, freq)
    ensures Huffman.HuffmanEncodeRleBinary(rle, Huffman.Codes(t, "")).Some?
    ensures DecodeHuffmanRows(Huffman.HuffmanEncodeRleBinary(rle, Huffman.Codes(t, "")).value,
                              Huffman.ReverseCodes(Huffman.Codes(t, "")), 2) == Some(Expand(rle))
  {
    var codes := Huffman.Codes(t, "");
    Huffman.EncodeSucceeds(rle, freq, t);
    Huffman.CodeTableFor(t, freq);
    HuffmanRowsRoundTrip(rle, codes, Huffman.HuffmanEncodeRleBinary(rle, codes).value);
  }

  /** The count as stored by the shadowing `huffman_encode_rle` is binary, but
      `decompress_huffman_csv` reads it as decimal: a run of two 7s is stored
      as `("", "10")` (a single-leaf table) and comes back as ten 7s. */
  lemma HuffmanCountMisread()
    ensures
      var rle := [Run(7, 2)];
      var t := Huffman.Leaf(7, 2);
      var rows := Huffman.HuffmanEncodeRleBinary(rle, Huffman.Codes(t, ""));
      && Huffman.IsHuffmanTreeFor(t, map[7 := 2])
      && rows == Some([("", "10")])
      && DecodeHuffmanRows(rows.value, Huffman.ReverseCodes(Huffman.Codes(t, "")), 10) == Some(seq(10, _ => 7))
      && DecodeHuffmanRows(rows.value, Huffman.ReverseCodes(Huffman.Codes(t, "")), 10) != Some(Expand(rle))
  {
    var rle := [Run(7, 2)];
    var t := Huffman.Leaf(7, 2);
    var codes := Huffman.Codes(t, "");
    assert codes == map[7 := ""];
    // Encoding: the single run becomes ("", decimal_to_binary(2)) == ("", "10").
    assert rle[..0] == [];
    assert Binary.DecimalToBinary(2) == "10";
    var rows := [("", "10")];
    assert Huffman.HuffmanEncodeRleBinary(rle, codes) == Some([] + [(codes[7], Binary.DecimalToBinary(2))]);
    assert [] + [(codes[7], Binary.DecimalToBinary(2))] == rows;
    // Decoding: "" maps back to 7, and int("10") is ten.
    var rev := Huffman.ReverseCodes(codes);
    assert "" in codes.Values by {
      assert codes[7] == "";
    }
    assert rev[""] in codes;
    assert Binary.DigitsValue("10", 10) == 10 by {
      assert "10"[..1] == "1";
      assert "1"[..0] == "";
    }
    assert rows[..0] == [];
    assert [] + seq(10, _ => rev[""]) == seq(10, _ => 7);
    assert |seq(10, _ => 7)| != |Expand(rle)|;
  }
}
