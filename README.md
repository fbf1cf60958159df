# RLE + Fibonacci / RLE + Huffman grayscale codec, modelled in Dafny

The repository compresses a grayscale image, flattened to a sequence of
pixels in 0..255, in two stages:

- **Run-length encoding.** `run_length_encode` turns the pixels into
  `(value, length)` runs.
- **Integer coding of the runs**, in one of two ways:
  - *Fibonacci:* each value is written in binary (`decimal_to_binary`) and
    each run length as a Fibonacci (Zeckendorf) codeword. `fibonacciEncoding`
    writes the codeword using a 100-slot table that `largestFiboLessOrEqual`
    fills on demand.
  - *Huffman:* run values are weighted by their total run length
    (`count_gray_frequencies`). A Huffman tree is built over a min-heap keyed
    on weight (`build_huffman_tree`). Each value gets the path to its leaf as
    its code (`generate_huffman_codes`), and each run becomes a record
    (`huffman_encode_rle`).

The decompressors do the reverse, row by row:

- `fibonacci_decoding` and `int(s, 2)` recover each run from a Fibonacci
  record.
- An inverted code dictionary and `int(s)` recover each run from a Huffman
  record.
- Each run is then expanded back into pixels.

utils.py and Makalah.py contain identical copies of `run_length_encode`,
the `fib` table, `largestFiboLessOrEqual`, `fibonacciEncoding`,
`decimal_to_binary` and the Huffman functions. compress_fibonacci.py
defines only its own copies of the `fib` table, `largestFiboLessOrEqual`
and `fibonacciEncoding`, and imports the rest from utils.py. Each is
modelled once:

- utils.py:11-53 corresponds to Makalah.py:17-58.
- utils.py:28-53 corresponds to compress_fibonacci.py:7-32.
- utils.py:55-110 corresponds to Makalah.py:60-113.

Modules:

- `Common` (common.dfy): the pixel type `Sample` (0..255) and `Option`,
  which stands for the exceptions the source raises (`KeyError`,
  `ValueError`).
- `RunLength` (rle.dfy): `Run`, the expansion `Expand` that both
  decompressors perform, and `RunLengthEncode`, a loop proved against
  `Expand`.
- `Fibonacci` (fibonacci.dfy):
  - the table recurrence `Fib`;
  - the meaning of a codeword, `FibonacciValue`, and the shape of a valid
    codeword, `IsFibonacciCodeword`;
  - the Zeckendorf lemmas;
  - the decoder `FibonacciDecoding`;
  - class `FibTable`. Its `fib: array<nat>` field is the module-global
    100-slot list, updated in place by `LargestFiboLessOrEqual` and read by
    `FibonacciEncoding`. The codeword buffer is a local `array<char>`.
- `Binary` (binary.dfy): `DecimalToBinary` and `ParseInt`, the model of
  `int(s, base)` on digit strings.
- `Huffman` (huffman.dfy):
  - the tree `Node`;
  - the frequency loop, the heap loop, the recursive `Traverse`, and both
    `huffman_encode_rle` variants;
  - the inverted code table `ReverseCodes`.
- `Decompress` (decompress.dfy): the row loops of both decompressors, as
  methods proved against pure per-row specifications, with the round-trip
  lemmas.
- `Pipeline` (pipeline.dfy): the Makalah.py compression steps chained with
  the matching decompressor.

## Model

| member | source | states |
|---|---|---|
| RunLength.RunLengthEncode | utils.py:11-23 | For a non-empty input: every run has length ≥ 1, neighbouring runs have different values, the runs expand to exactly the input, and the lengths sum to its length. |
| RunLength.MaximalRunsUnique | Makalah.py:17-29 | Two maximal run lists with the same expansion are equal, so the encoder's output is the only maximal run list for its input. |
| RunLength.Expand | Makalah.py:245 | The expansion `decompressed.extend([gray_val] * count)` over all runs, as both decompressors perform it (also Makalah.py:257), produces exactly as many pixels as the run lengths add up to. |
| RunLength.CountAtMostTotal | utils.py:11-23 | No single run is longer than the whole pixel sequence. |
| Fibonacci.FibStrictlyIncreasing | utils.py:33-37 | The table recurrence `fib[0]=1, fib[1]=2, fib[i]=fib[i-1]+fib[i-2]` is strictly increasing. |
| Fibonacci.FibTable.constructor | utils.py:30 | `fib = [0 for _ in range(N)]`: a fresh table of exactly 100 slots, every slot 0. |
| Fibonacci.FibTable.LargestFiboLessOrEqual | utils.py:32-39 | For n < fib[99]: the returned idx satisfies `fib[idx] <= n < fib[idx+1]` when n ≥ 1 (idx = 0 for n = 0), and idx + 1 < 100, so no write leaves the table. Afterwards `fib[0..idx+1]` holds the recurrence and the rest of the table is unchanged. |
| Fibonacci.FibTable.FibonacciEncoding | utils.py:41-53 | For 1 ≤ n < fib[99], the codeword has these properties: it is a string over {0,1}; it ends in "11"; it has no two adjacent 1s before the terminator; its 1s, terminator excluded, sum to n; and `Fib(len-2) <= n < Fib(len-1)`. For n = 0 the result is "*1". The table prefix the codeword needs is filled. |
| Fibonacci.FibTable.WriteCodeword | utils.py:43-53 | The nested loops fill a buffer of idx+2 placeholder cells. The result has length idx+2. For n ≥ 1 it is a valid codeword (only 0s and 1s, no `*` left, ending in "11", no adjacent 1s before the terminator) of value n. For n = 0 it is "*1". |
| Fibonacci.ZeckendorfBound | compress_fibonacci.py:24-30 | Bits with no two adjacent 1s in the first j positions sum to less than Fib(j). It bounds a codeword's value by its length, which is why the value fixes the length. |
| Fibonacci.ZeckendorfUniqueWidth | utils.py:45-51 | Two bit strings of the same width, both without adjacent 1s and with the same value, are equal (uniqueness of the Zeckendorf representation). |
| Fibonacci.CodewordRange | utils.py:41-53 | A valid codeword of length L has a value in `[Fib(L-2), Fib(L-1))`. |
| Fibonacci.CodewordUnique | utils.py:41-53 | Two valid codewords with the same value are identical, so each n has at most one codeword; for 1 ≤ n < fib[99] the encoder's is that one. |
| Fibonacci.FibonacciDecoding | Makalah.py:226-236 | Extends the local table until it has at least len(code) entries, so every read is in range. The result is the sum of `fib[i]` over the 1s at positions before the last character, with no validation (`""` and one-character strings give 0). |
| Fibonacci.FibTable.FibonacciRoundTrip | Makalah.py:226-236 | `fibonacci_decoding(fibonacciEncoding(n)) == n` for 1 ≤ n < fib[99]. |
| Binary.DecimalToBinary | utils.py:55-56 | `bin(n)[2:]` is a non-empty binary string. It is "0" exactly for n = 0 and starts with '1' otherwise, and `int(s, 2)` of it is n. |
| Binary.ParseInt | Makalah.py:243 | On the ASCII digit strings the encoders write, `int(s, base)` succeeds exactly on non-empty strings whose every character is a digit of the base. Strings outside that form are rejected (ValueError), which is narrower than Python; see Left out. |
| Binary.BinaryCanonical | Makalah.py:60-61 | Any binary string without a leading zero is exactly `decimal_to_binary` of its value, so the binary form is canonical. |
| Huffman.CountGrayFrequencies | utils.py:73-77 | The keys are exactly the values that occur in the run list. Each key's weight is the total length of that value's runs. |
| Huffman.FrequencyTotal | utils.py:73-77 | Summed over any duplicate-free listing of the occurring values, the weights equal the total of all run lengths. |
| Huffman.InitialHeap | utils.py:81-83 | The push loop puts one leaf per table entry on the heap, carrying that entry's weight, in an order left open. Every gray of the table is on the heap exactly once, and nothing else is. |
| Huffman.PopMin | utils.py:69-70 | `heappop` with `__lt__` comparing only freq removes some node of least weight, with ties left open, and keeps every other node. |
| Huffman.BuildHuffmanTree | utils.py:80-91 | An empty table gives None, and a one-entry table gives a single leaf. Otherwise every table gray is exactly one leaf carrying its weight, and every internal node weighs the sum of its two children. All of this holds for any tie-break order. |
| Huffman.RootWeightIsTotal | utils.py:80-91 | The root of the tree built from a run list's frequencies weighs the total run length. |
| Huffman.Traverse | utils.py:97-103 | The recursive walk adds to the dictionary the code of every leaf below the node, and changes nothing else: the path, with '0' for left and '1' for right. |
| Huffman.GenerateHuffmanCodes | utils.py:94-106 | No tree gives `{}`. A single leaf gets the empty code `""`. Otherwise the table is the leaf-path table of the tree. |
| Huffman.CodesKeys | utils.py:94-106 | Exactly one code per leaf gray. |
| Huffman.CodesPrefixFree | utils.py:97-103 | When no gray appears at two leaves, no code is a prefix of another gray's code. |
| Huffman.CodeTableFor | utils.py:80-106 | The table generated from a Huffman tree for `freq` has exactly the keys of `freq`, and is prefix-free and therefore injective. |
| Huffman.HuffmanEncodeRle | utils.py:109-110 | The result exists exactly when every run value has a code (KeyError otherwise). It then has one record per run, in order, pairing the run's code with its unchanged count. |
| Huffman.HuffmanEncodeRleBinary | Makalah.py:141-142 | The result exists exactly when every run value has a code. It then has one record per run, in order: the run's code and exactly `decimal_to_binary(count)`, which `int(s, 2)` reads back as the count. |
| Huffman.EncodeSucceeds | Makalah.py:141-151 | Every lookup succeeds when the code table was generated from the frequencies of the same run list. |
| Huffman.ReverseCodes | Makalah.py:249 | The inverted table's keys are exactly the codes, and each code maps to a gray that has it. |
| Huffman.ReverseInverts | Makalah.py:249 | For an injective table (which every generated table is), `reverse[codes[g]] == g` for every gray g. |
| Decompress.DecodeFibonacciRows | Makalah.py:238-246 | Decoding the Fibonacci rows fails exactly when some gray field is not a binary number. |
| Decompress.DecompressFibonacciCsv | Makalah.py:241-246 | The row loop returns what `DecodeFibonacciRows` specifies: each row appends `count` copies of its gray, where count is `fibonacci_decoding` of the codeword. |
| Decompress.FibonacciRowsRoundTrip | Makalah.py:243-245 | Rows carrying each run's value in binary and a codeword whose value is the run's length decode to the expanded runs. |
| Decompress.DecodeHuffmanRows | Makalah.py:250-258 | Decoding the Huffman rows fails exactly when some code is missing from the inverted table (KeyError) or some count is not a number in the base (ValueError). |
| Decompress.DecompressHuffmanCsv | Makalah.py:253-257 | The row loop returns what `DecodeHuffmanRows` specifies: each row appends `count` copies of the gray its code maps to. |
| Decompress.HuffmanRowsRoundTrip | Makalah.py:255-257 | Rows carrying each run's code from an injective table, and its length in binary, decode through the inverted table and base-2 counts to the expanded runs. |
| Decompress.HuffmanCsvRoundTrip | Makalah.py:249-257 | With the count read as `int(count, 2)`: encoding a run list with the table built from its own frequencies succeeds, and decoding the records gives back the expanded runs. |
| Decompress.HuffmanCountMisread | Makalah.py:256 | As written, the count is read with `int(count)`. The single run (7, 2) is stored as `("", "10")` and decodes to ten 7s instead of two. |
| Pipeline.EncodeFibonacciRows | Makalah.py:129 | Each run becomes its value in binary and a Fibonacci codeword whose value is the run's length, valid whenever the length is ≥ 1. |
| Pipeline.FibonacciRoundTrip | Makalah.py:238-246 | Runs, Fibonacci records and `decompress_fibonacci_csv`'s row loop give back the original pixels, for images with fewer than fib[99] pixels. |
| Pipeline.HuffmanRoundTrip | Makalah.py:148-151 | Runs, frequencies, tree, codes and the shadowing `huffman_encode_rle` give a prefix-free table and one record per run. With base-2 counts, the records decode to the original pixels. |

## Left out

- **Image I/O.** Reading and writing images with PIL and numpy is outside the model. Pixels are a `seq<Sample>` given as a parameter, with numpy's `uint8` taken as integers 0..255.
- **CSV files.** Files and `csv.writer`/`csv.DictReader` are not modelled. The decompressors take the data rows as a sequence of two-string pairs, exactly as `DictReader` would return them.
- **Printing and the analysis.** `print_analysis`, the bit counts and the floating-point ratios only print. The top-level script bodies, and compress_huffman.py and compress_rle_basic.py, are also not modelled.
- **Exceptions.** Uncaught exceptions (`KeyError`, `ValueError`) are modelled as `None`. A decompressor that raises on a later row returns `None`, not a partial result.
- **heapq tie-break.** The exact tie-break order of heapq, and the heap's internal array layout, are not modelled. The heap is a sequence from which `PopMin` removes some least-weight node, and dictionary iteration order is also left open, so no tree shape under ties is claimed. Huffman optimality is not claimed, since the source never relies on it.
- **int() leniency.** Python's `int()` also accepts signs, surrounding whitespace, underscores between digits, a `0b`/`0B` prefix in base 2 (`int("0b10", 2)` is 2) and non-ASCII Unicode decimal digits. `ParseInt` accepts plain ASCII digit strings only, which is all the encoders ever write.
- **Python integers.** They are unbounded, like Dafny's, so no width or wrap-around is modelled.
- **Empty image.** `run_length_encode` reads `arr[0]` unconditionally and raises IndexError on an empty input (utils.py:13). `RunLengthEncode` excludes that case by `requires |arr| > 0`, so the model does not capture the error.
- **Fibonacci table bound.** `FibonacciEncoding` requires n < fib[99]. For larger n, `largestFiboLessOrEqual` writes past the 100-slot list and raises IndexError, an error path the model excludes by precondition.
- **Huffman.ReverseCodes.** The dictionary comprehension is a ghost function. For a table with two equal codes it keeps some gray with that code, not necessarily the last one iterated, as Python would. Generated tables never have equal codes (`Huffman.CodeTableFor`).
- **Degenerate cases, as the code behaves.**
  - A single-leaf tree gets the empty code `""`, because `traverse` starts from the empty prefix.
  - `fibonacci_decoding` validates nothing and never fails.
  - `fibonacciEncoding(0)` returns `"*1"`. This case is modelled, not excluded. The encoder is never called with 0, because run lengths are at least 1.

## Findings

| source | as written | input that shows it | evidently intended | confidence | as-written member | corrected member |
|---|---|---|---|---|---|---|
| Makalah.py:256 | The second `huffman_encode_rle` (Makalah.py:141-142) shadows the first definition at Makalah.py:112-113 and stores each count as `decimal_to_binary(count)`. `decompress_huffman_csv` reads it back with `int(row['Count'])`, in base 10. | The run list `[(7, 2)]` gives the single-leaf table `{7: ""}` and the record `("", "10")`, which decodes to ten 7s. | Read the count as `int(row['Count'], 2)`, so that decompression gives back the original pixels. | high; not executed | Decompress.HuffmanCountMisread | Decompress.HuffmanCsvRoundTrip |
