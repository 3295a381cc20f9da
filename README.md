# Algorithms and data structures coursework, modelled in Dafny

This project models the computational core of a collection of algorithms-and-data-structures exercises and proves properties of it. The exercises are:

- **NDArray** (`NDArray.h`): a C++ array of integers of rank one or two.
  - The state is the shape, the element count `dimsAmount` and a flat row-major store.
  - Operations: the two constructors, indexing, deep-copy assignment, element-wise and scalar arithmetic in place and by copy, `replaceAllValues`, `transpose`, `matMul`, and per-array or per-row `min`, `max` and `mean`.
  - Modelled as the class `NDArrays.NDArray` with sequence fields. Every method is proved against the cell-by-cell specification of what it computes.
- **Byte-string hashes** (`hash_functions.py`): `hash_crc` and `hash_pjw` over unbounded Python integers.
  - Modelled as loop methods proved equal to left folds of a per-byte step. The bit masks are written arithmetically.
- **Duplicate detection** (`duplicates_finder.py`): a file is a duplicate when an earlier file had the same hash.
- **A length-prefixed binary tree serialiser** (`TreeSerialization/graph.py`): a node's name, two float32 values and its children.
  - Both the dictionary form and the binary form round-trip.
  - Decoding reports exactly the number of bytes the encoding used.
- **A widget-tree text serialiser** (`serialization_task/main.py`): `to_binary` writes the widget tree as text.
  - `from_binary` reads the records back, inserting each widget into a history list. It rebuilds the tree's shape only for inputs like the demo tree.
  - As written it does not recover titles or `max_length`, and a layout nested in a layout raises IndexError (see Findings).
  - After a main window record the reader resumes 4 characters in and then steps 3 at a time. It meets the next record only when the title's length is 2 more than a multiple of 3 and the characters it steps on are not class codes '0'-'3'.
  - Widget objects live in an arena (`Widgets.Gui.widgets`), and a widget is its position there.
- **Graph algorithms on weighted undirected graphs** (`clusterisation.py`, `ClusterMap.py`).
  - A networkx graph is a node list plus a map from each node to its neighbours' weights.
  - Algorithms: total weight, two Prim-style spanning trees, a heap-driven spanning tree, and clustering by removing the heaviest tree edges.
  - Also modelled: the generation of graph edges between map sites, with the distance between two sites left abstract.

Modules:

- `Wrappers`: `Option`, and `Result`, where `Error` stands for a raised Python exception.
- `Bytes`: byte packing.
- `Hashing`, `Duplicates`, `TreeSerialization`, `Widgets`, `NDArrays`.
- `Graphs`: the shared graph representation and networkx operations.
- `Clusterisation` and `ClusterMap`.

## Model

| member | source | states |
|---|---|---|
| NDArrays.NDArray.Vector | ndarray_task/headers/NDArray.h:22-26 | the 1-D constructor gives shape `[sh]`, `dimsAmount == sh` and `sh` copies of `val` |
| NDArrays.NDArray.constructor | ndarray_task/headers/NDArray.h:30-38 | the shape constructor copies the shape, sets `dimsAmount` to the product of the dimensions, and fills that many copies of `val` |
| NDArrays.ProductNonnegative | ndarray_task/headers/NDArray.h:31-36 | the element count of a shape with nonnegative dimensions is nonnegative |
| NDArrays.NDArray.Copy | ndarray_task/headers/NDArray.h:86 | the implicit copy constructor copies shape, count and store |
| NDArrays.NDArray.Set | ndarray_task/headers/NDArray.h:53-56 | `operator()(i)` requires `i < dimsAmount`; writing through it changes exactly `data[i]` |
| NDArrays.NDArray.Set2 | ndarray_task/headers/NDArray.h:60-64 | `operator()(i, j)` requires `i < shapes[0]` and `j < shapes[1]`; writing through it changes cell (i, j) and no other cell |
| NDArrays.CellInRange | ndarray_task/headers/NDArray.h:63 | `i * shapes[1] + j` lies inside the store for every valid (i, j) |
| NDArrays.CellInjective | ndarray_task/headers/NDArray.h:63 | distinct cells have distinct flat positions |
| NDArrays.CellCovers | ndarray_task/headers/NDArray.h:63 | every flat position is the position of some cell |
| NDArrays.CellsDetermineStore | ndarray_task/headers/NDArray.h:63 | two stores of the same shape that agree on every cell are equal |
| NDArrays.NDArray.AssignAsWritten | ndarray_task/headers/NDArray.h:67-75 | `operator=` as written: shape and count are copied; the store becomes the source's first `dimsAmount` elements, but stays empty when the source is the target, has an empty store, or has a count of zero or less |
| NDArrays.NDArray.Assign | ndarray_task/headers/NDArray.h:67-75 | assignment with the self-assignment check: this becomes an exact copy of `v` and is valid |
| NDArrays.NDArray.AddArray | ndarray_task/headers/NDArray.h:78-82 | requires equal shapes; every element becomes the sum of the two elements at its position; the shape is unchanged |
| NDArrays.NDArray.AddScalar | ndarray_task/headers/NDArray.h:91-95 | adds `n` to every element |
| NDArrays.NDArray.MulArray | ndarray_task/headers/NDArray.h:104-109 | requires equal shapes; element-wise products |
| NDArrays.NDArray.MulScalar | ndarray_task/headers/NDArray.h:117-121 | multiplies every element by `n` |
| NDArrays.NDArray.Negated | ndarray_task/headers/NDArray.h:130-133 | unary minus returns a fresh copy with every element negated |
| NDArrays.NDArray.SubArray | ndarray_task/headers/NDArray.h:136-138 | `-=` as `+=` of the negated operand: element-wise differences |
| NDArrays.NDArray.SubScalar | ndarray_task/headers/NDArray.h:146-148 | `-= n` as `+= -n`: subtracts `n` from every element |
| NDArrays.NDArray.DivArray | ndarray_task/headers/NDArray.h:157-162 | requires equal shapes and nonzero divisors; element-wise C++ (truncating) quotients |
| NDArrays.NDArray.DivScalar | ndarray_task/headers/NDArray.h:170-174 | divides every element by `n`, truncating toward zero |
| NDArrays.TDiv | ndarray_task/headers/NDArray.h:172 | C++ `/`: the remainder is smaller than the divisor in magnitude and has the sign of the dividend |
| NDArrays.NDArray.Plus | ndarray_task/headers/NDArray.h:85-88 | `+` returns a fresh element-wise sum and leaves the receiver unchanged |
| NDArrays.NDArray.PlusScalar | ndarray_task/headers/NDArray.h:98-101 | `+ n` returns a fresh copy with `n` added |
| NDArrays.NDArray.Times | ndarray_task/headers/NDArray.h:111-114 | `*` returns a fresh element-wise product |
| NDArrays.NDArray.TimesScalar | ndarray_task/headers/NDArray.h:124-127 | `* n` returns a fresh scaled copy |
| NDArrays.NDArray.Minus | ndarray_task/headers/NDArray.h:140-143 | `-` returns a fresh element-wise difference |
| NDArrays.NDArray.MinusScalar | ndarray_task/headers/NDArray.h:151-154 | `- n` returns a fresh copy with `n` subtracted |
| NDArrays.NDArray.Over | ndarray_task/headers/NDArray.h:164-167 | `/` returns fresh element-wise truncated quotients |
| NDArrays.NDArray.OverScalar | ndarray_task/headers/NDArray.h:176-179 | `/ n` returns a fresh copy divided by `n` |
| NDArrays.NDArray.ReplaceAllValues | ndarray_task/headers/NDArray.h:182-187 | from any state, the store becomes `dimsAmount` copies of `val` (none for a negative count) while shape and count stay; an array whose shape and count agree is valid afterwards |
| NDArrays.NDArray.Transpose | ndarray_task/headers/NDArray.h:190-200 | the shape (r, c) becomes (c, r), and new cell (j, i) equals old cell (i, j) |
| NDArrays.TransposeInvolution | ndarray_task/headers/NDArray.h:190-200 | the transpose of the transpose is the original store |
| NDArrays.TransposeTwice | ndarray_task/headers/NDArray.h:190-200 | transposing twice restores shape and elements |
| NDArrays.NDArray.MatMul | ndarray_task/headers/NDArray.h:203-220 | requires `shapes[1] == v1.shapes[0]`; result shape `(shapes[0], v1.shapes[1])`, each entry the dot product of a row and a column; `v1` is unchanged |
| NDArrays.NDArray.FillRow | ndarray_task/headers/NDArray.h:211-217 | the middle loop fills row k with the product entries and leaves the other rows unchanged |
| NDArrays.NDArray.RowTimesColumn | ndarray_task/headers/NDArray.h:212-215 | the inner loop computes one entry of the product through the transposed copy |
| NDArrays.PartialProductOfConstants | ndarray_task/headers/NDArray.h:212-215 | a dot product of length `len` of constant rows `x` and `y` is `len * x * y` |
| NDArrays.MatMulExample | ndarray_task/headers/NDArray.h:203-220 | a (2,3) array of 4s times a (3,2) array of 13s is a (2,2) array of 156s |
| NDArrays.RowInRange | ndarray_task/headers/NDArray.h:232 | row n spans positions `n*shapes[1] .. n*shapes[1]+shapes[1]-1` inside the store |
| NDArrays.NDArray.Min | ndarray_task/headers/NDArray.h:223-238 | the result is an element of the whole store (`n == -1`) or of row n, and no larger than any of them |
| NDArrays.NDArray.Max | ndarray_task/headers/NDArray.h:241-256 | the result is an element of the span and no smaller than any of them |
| NDArrays.NDArray.Mean | ndarray_task/headers/NDArray.h:259-274 | the sum of the span divided, truncating, by `dimsAmount` or by `shapes[1]` |
| NDArrays.SumBounds | ndarray_task/headers/NDArray.h:263-270 | a sum of n elements in [lo, hi] lies in [n*lo, n*hi] |
| NDArrays.MeanWithinBounds | ndarray_task/headers/NDArray.h:259-274 | the mean lies between any lower and upper bound of the elements |
| NDArrays.TDivBetween | ndarray_task/headers/NDArray.h:266 | truncated division by a positive count keeps bounds |
| NDArrays.SumOfConstant | ndarray_task/headers/NDArray.h:263-265 | the sum of n copies of x is n*x |
| NDArrays.MeanOfConstant | ndarray_task/headers/NDArray.h:259-274 | the mean of a constant array is that constant |
| NDArrays.ReductionExample | ndarray_task/headers/NDArray.h:223-274 | on [[1,2],[3,4]]: min 1, max 4, mean 2; for row 1: min 3, max 4, mean 3 |
| NDArrays.SelfAssignmentEmptiesStore | ndarray_task/headers/NDArray.h:67-75 | `a = a` on a one-element array keeps the count 1 but empties the store, and a later `b = a` gives b the count 1 with an empty store |
| NDArrays.SelfAssignmentKeepsStore | ndarray_task/headers/NDArray.h:67-75 | with the check, `a = a` keeps the element |
| Hashing.HashCrc | hash_task/modules/hash_functions.py:4-12 | the loop returns the left fold of the CRC step from 0 |
| Hashing.CrcAppend | hash_task/modules/hash_functions.py:7-11 | the hash of `data + [b]` is the step applied to the hash of `data` |
| Hashing.CrcShortInputs | hash_task/modules/hash_functions.py:6-12 | empty input hashes to 0; a one-byte input hashes to the byte |
| Hashing.CrcZeroStep | hash_task/modules/hash_functions.py:8-11 | a zero byte shifts left by five and feeds back bits 27..31 |
| Hashing.CrcAppendZero | hash_task/modules/hash_functions.py:8-11 | appending a zero byte multiplies the hash by at least 32 |
| Hashing.CrcAppendZeros | hash_task/modules/hash_functions.py:7-11 | appending m zero bytes multiplies it by at least 32^m |
| Hashing.CrcExceeds32Bits | hash_task/modules/hash_functions.py:9 | the hash is not masked to 32 bits: `[1, 0, 0, 0, 0, 0, 0, 0]` hashes to at least 2^35 |
| Hashing.HashPjw | hash_task/modules/hash_functions.py:15-24 | the loop returns the left fold of the PJW step from 0 |
| Hashing.PjwAppend | hash_task/modules/hash_functions.py:18-23 | the hash of `data + [b]` is the step applied to the hash of `data` |
| Hashing.PjwShortInputs | hash_task/modules/hash_functions.py:17-23 | empty input hashes to 0; a one-byte input hashes to the byte |
| Hashing.PjwClearNibble | hash_task/modules/hash_functions.py:20-23 | xoring `g >> 24` and `g` clears bits 28..31 and changes only bits 4..7 below them |
| Hashing.PjwStepShape | hash_task/modules/hash_functions.py:19-23 | the step's bits from 28 up are those of `(h << 4) + ki` with bits 28..31 cleared |
| Hashing.PjwClearsHighNibble | hash_task/modules/hash_functions.py:20-23 | after every step bits 28..31 are zero |
| Hashing.PjwKeepsUpperBits | hash_task/modules/hash_functions.py:18-19 | the step keeps the bits above 31, so the hash is not masked to 32 bits |
| Hashing.PjwFoldHighNibble | hash_task/modules/hash_functions.py:15-24 | the final hash has bits 28..31 clear |
| Hashing.XorSplit | hash_task/modules/hash_functions.py:10 | `^` acts separately on the bits below and above any position |
| Duplicates.Hashes | hash_task/modules/duplicates_finder.py:17-21 | one hash per file, in list order |
| Duplicates.FirstIndex | hash_task/modules/duplicates_finder.py:24-27 | the first position holding a hash |
| Duplicates.DupIndicesSpec | hash_task/modules/duplicates_finder.py:17-27 | a position is a duplicate iff its hash occurs earlier; positions stay in input order |
| Duplicates.DupIndicesMembers | hash_task/modules/duplicates_finder.py:17-27 | a position is reported iff its hash occurs at an earlier position |
| Duplicates.DupIndicesIncreasing | hash_task/modules/duplicates_finder.py:17-27 | the reported positions are strictly increasing |
| Duplicates.DupIndicesPrefix | hash_task/modules/duplicates_finder.py:24-25 | one more file adds its position exactly when its hash was seen |
| Duplicates.DuplicateCount | hash_task/modules/duplicates_finder.py:24-27 | duplicates plus distinct hashes equals the number of files |
| Duplicates.ListsDuplicatesStep | hash_task/modules/duplicates_finder.py:24-25 | the loop body appends exactly the files whose hash was seen |
| Duplicates.MapsToFirstStep | hash_task/modules/duplicates_finder.py:24-27 | a hash is a key iff seen before; a new hash maps to its file; old entries are never overwritten |
| Duplicates.FindDuplicates | hash_task/modules/duplicates_finder.py:5-29 | `duplicates` are the files at duplicate positions, in order; `hash_to_file` maps each hash to its first file; `len(duplicates) == len(files) - len(hash_to_file)` |
| Bytes.FromToLittleEndian | lecture_tasks/TreeSerialization/graph.py:41 | little-endian bytes read back to the number |
| Bytes.FromToBigEndian | lecture_tasks/TreeSerialization/graph.py:36 | big-endian bytes read back to the number |
| Bytes.PackI32 | lecture_tasks/TreeSerialization/graph.py:41 | `pack("i", x)` is four bytes |
| Bytes.UnpackI32 | lecture_tasks/TreeSerialization/graph.py:46 | `unpack("i")` yields a 32-bit signed value |
| Bytes.UnpackPackI32 | lecture_tasks/TreeSerialization/graph.py:41-51 | `unpack("i", pack("i", x)) == x` for every x in the 32-bit range |
| Bytes.PackBE32 | lecture_tasks/TreeSerialization/graph.py:36 | a float32 pattern packs to four bytes |
| Bytes.UnpackPackBE32 | lecture_tasks/TreeSerialization/graph.py:36-48 | `>f` unpacking inverts packing on 32-bit patterns |
| TreeSerialization.NewNode | lecture_tasks/TreeSerialization/graph.py:7-11 | a new node has the given name and values and no children |
| TreeSerialization.AddNode | lecture_tasks/TreeSerialization/graph.py:13-15 | the child goes after the existing children; nothing else changes |
| TreeSerialization.AddNodeToDict | lecture_tasks/TreeSerialization/graph.py:13-24 | `to_dict` lists an added child last under "nodes" |
| TreeSerialization.AllSome | lecture_tasks/TreeSerialization/graph.py:30-31 | the child list is rebuilt iff every child is rebuilt, in order |
| TreeSerialization.DictRoundTrip | lecture_tasks/TreeSerialization/graph.py:17-32 | `from_dict(to_dict(n))` rebuilds name, both values and the children in order |
| TreeSerialization.ToBinary | lecture_tasks/TreeSerialization/graph.py:34-42 | the loop builds the length-prefixed record with the children data in order |
| TreeSerialization.EncodeAllAppend | lecture_tasks/TreeSerialization/graph.py:38-40 | the children data of one more child is followed by that child's encoding |
| TreeSerialization.NoneSpreads | lecture_tasks/TreeSerialization/graph.py:38-41 | a child that cannot be packed makes the parent unpackable |
| TreeSerialization.EncodedSize | lecture_tasks/TreeSerialization/graph.py:41 | the encoding is 16 bytes per node plus all name bytes |
| TreeSerialization.EncodedSizeAll | lecture_tasks/TreeSerialization/graph.py:37-40 | the same for a list of children |
| TreeSerialization.EncodeDefined | lecture_tasks/TreeSerialization/graph.py:41 | a tree whose encoding fits the `pack("i")` range can be encoded |
| TreeSerialization.EncodeAllDefined | lecture_tasks/TreeSerialization/graph.py:37-40 | the same for a list of children |
| TreeSerialization.FromBinary | lecture_tasks/TreeSerialization/graph.py:44-59 | reading the header and then the children computes the decoding, with the consumed size `len_name+8+4+4+len_childs` |
| TreeSerialization.ReadChildren | lecture_tasks/TreeSerialization/graph.py:53-58 | the cursor loop over the children data yields exactly the decoded child list, or fails when the decoding fails |
| TreeSerialization.ReadChild | lecture_tasks/TreeSerialization/graph.py:56-58 | one child read at the cursor either fails the whole loop or extends the children found and moves the cursor by its size |
| TreeSerialization.DecodeRecord | lecture_tasks/TreeSerialization/graph.py:44-54 | decoding a record built from name, values and children data reads those fields and then loops over the children data |
| TreeSerialization.RecordFollowedBy | lecture_tasks/TreeSerialization/graph.py:41 | the record's length is name + 16 + children data |
| TreeSerialization.RecordFields | lecture_tasks/TreeSerialization/graph.py:46-51 | every field sits at the offset `from_binary` slices |
| TreeSerialization.DecodeFields | lecture_tasks/TreeSerialization/graph.py:46-54 | decoding a record reads its fields and then the children loop |
| TreeSerialization.DecodeParsed | lecture_tasks/TreeSerialization/graph.py:46-59 | decoding a buffer whose fields are located gives the node and its consumed size |
| TreeSerialization.DecodeChildrenStep | lecture_tasks/TreeSerialization/graph.py:55-58 | a child that fails, or reports a non-positive size, fails the loop; otherwise the loop advances by its size |
| TreeSerialization.NextChild | lecture_tasks/TreeSerialization/graph.py:55-58 | the child at the cursor is read back and the cursor moves past it |
| TreeSerialization.ChildrenRoundTrip | lecture_tasks/TreeSerialization/graph.py:55-58 | the loop over concatenated child encodings yields exactly those children |
| TreeSerialization.BinaryRoundTrip | lecture_tasks/TreeSerialization/graph.py:44-59 | decoding `to_binary(n)`, followed by any bytes, gives n and the size `len(to_binary(n))` |
| TreeSerialization.DemoSize | lecture_tasks/TreeSerialization/graph.py:62-70 | the demo tree has five nodes and five name bytes |
| TreeSerialization.DemoBinaryRoundTrip | lecture_tasks/TreeSerialization/graph.py:62-73 | the demo encodes to 85 bytes and decodes back to itself |
| Widgets.Attached | serialization_task/main.py:11-18 | a new widget goes last, and is appended to its parent's children; nothing else changes |
| Widgets.AttachedWellFormed | serialization_task/main.py:11-18 | creating a widget keeps parent and child links consistent |
| Widgets.Gui.AddChildren | serialization_task/main.py:17-18 | appends to one widget's child list |
| Widgets.Gui.NewWidget | serialization_task/main.py:11-15 | `__init__` with a parent appends the new widget to the parent's children |
| Widgets.NatToString | serialization_task/main.py:22 | a generation is written as decimal digits |
| Widgets.ParseNatToString | serialization_task/main.py:22 | decimal digits read back to the number |
| Widgets.ParseIntToString | serialization_task/main.py:29 | `int(f"{x}") == x` |
| Widgets.Gui.Record | serialization_task/main.py:20-34 | the record is code, generation, '/', payload, "//"; a main window's children keep the generation, others get generation + 1 + sibling index |
| Widgets.Gui.ToBinary | serialization_task/main.py:20-37 | the record followed by the children's encodings in child order |
| Widgets.EncodingIsText | serialization_task/main.py:20-37 | the serialisation is the records of the widgets in preorder |
| Widgets.ChildrenEncodingIsText | serialization_task/main.py:35-36 | the same for the children loop |
| Widgets.SplitJoin | serialization_task/main.py:32 | splitting "/".join(items) on '/' gives the items back, when no item is empty or contains '/' |
| Widgets.DecodeKindRoundTrip | serialization_task/main.py:21-33 | code and payload determine the widget's kind and attribute |
| Widgets.ReadRecordText | serialization_task/main.py:21-34 | a reader taking the payload up to "//" reads a record back |
| Widgets.PayloadDelimited | serialization_task/main.py:23-34 | a payload never contains "//" and never ends in '/' |
| Widgets.ReadRecordsText | serialization_task/main.py:20-37 | such a reader reads a sequence of records back |
| Widgets.CorrectedReadBack | serialization_task/main.py:20-37 | decoding the serialisation recovers every widget's kind and generation, in preorder |
| Widgets.ScanTitle | serialization_task/main.py:50-54 | the title loop ends inside the text, or fails at its end |
| Widgets.ScanMaxLength | serialization_task/main.py:70-76 | the max_length loop ends inside the text, or fails at its end |
| Widgets.ScanItem | serialization_task/main.py:91-95 | the inner items loop ends on a '/' |
| Widgets.ScanItems | serialization_task/main.py:90-98 | the outer items loop ends on the second '/' of a "//" |
| Widgets.TitleIsGenerationDigit | serialization_task/main.py:49-55 | the title loop stops after one step: the title read back is the generation digit |
| Widgets.MaxLengthDropsLastChar | serialization_task/main.py:70-77 | the max_length loop stops on the payload's last digit without appending it |
| Widgets.Insert | serialization_task/main.py:66 | `list.insert(i, x)` puts x at index min(i, len), with the elements before and after it in their old order |
| Widgets.Gui.InsertPosition | serialization_task/main.py:63-65 | position is `1 + buf_generation[h_buf] + sum(buf_generation[:h_buf])` |
| Widgets.Gui.Place | serialization_task/main.py:55-105 | the arena becomes `Attached` of the widget of the given kind, created under `history[h_buf]` unless it is a main window; a main window is appended to history, any other widget is inserted at `1 + buf_generation[h_buf] + sum(buf_generation[:h_buf])`, after a line edit or combo box has extended a too-short `buf_generation` by 0; the result is `Entered` of the new widget's index, failing exactly when `buf_generation[h_buf]` raises IndexError |
| Widgets.Counted | serialization_task/main.py:107-111 | the parent's `buf_generation` entry counts the new child (or a missing entry is appended as 1); the other entries and a main window's list are unchanged |
| Widgets.CorrectedEntered | serialization_task/main.py:57-66 | the Layout case with the missing append of 0: fails only when `h_buf` lies beyond `buf_generation`; otherwise one more history entry, the new widget |
| Widgets.CorrectedEnteredAgrees | serialization_task/main.py:57-105 | the correction leaves the LineEdit and ComboBox cases as they are and changes a layout only where the source raises |
| Widgets.NestedLayoutFails | serialization_task/main.py:49-66 | on `00/AB//10/1//11/1//` the cursor meets the first layout at index 7 (parent digit 0) and the second at 13 (parent digit 1); the first layout leaves `buf_generation == [1]` and the second layout's `buf_generation[1]` raises IndexError |
| Widgets.NestedLayoutsCursor | serialization_task/main.py:49-61 | on `00/AB//10/1//11/1//` the title loop stops at index 1, index 4 holds no class code, and indices 7 and 13 start layout records whose parent digits are 0 and 1 |
| Widgets.CorrectedNestedLayout | serialization_task/main.py:57-66 | with the correction the nested layout of `00/AB//10/1//11/1//` is inserted right after its parent layout and `buf_generation` becomes `[1, 0]` |
| Widgets.Entered | serialization_task/main.py:55-105 | fails exactly when `h_buf` is past the end of `buf_generation` after a line edit or combo box extended it by one (IndexError); otherwise history holds exactly one more entry, the new widget, keeps its first entry (or becomes `[select]`), and `buf_generation` keeps its length or grows to `h_buf + 1` entries |
| Widgets.Gui.Enter | serialization_task/main.py:63-66 | the history bookkeeping with the position loop computes `Entered` |
| Widgets.ParentDigit | serialization_task/main.py:58-59 | `h_buf` is the decimal value of the single character at number+1, and is defined exactly when that character is an ASCII digit |
| Widgets.ReadKind | serialization_task/main.py:45-106 | per class code, the exact result: a main window's title loop; `h_buf` as the digit at number+1; a layout's alignment digit 1 (horizontal) or 2 (vertical); a line edit's `int` of the max_length loop from number+3; a combo box's items loop from number+3 with the cursor moved back by two; fails when `h_buf` is no digit or not below the history size, an alignment is not 1 or 2, `int` rejects the max_length, or a loop runs off the data |
| Widgets.ReadTitle | serialization_task/main.py:49-54 | the title loop as a method with its state (number, buf, title) |
| Widgets.ReadMaxLength | serialization_task/main.py:70-76 | the max_length loop as a method |
| Widgets.ReadItems | serialization_task/main.py:87-98 | the nested items loops as a method |
| Widgets.Gui.FromBinary | serialization_task/main.py:40-114 | reads records until the text ends and returns `history[0]`, a new parentless main window; empty text fails; earlier widgets are unchanged |
| Graphs.EdgeListMembers | lecture_tasks/GraphClusterization/clusterisation.py:22 | `graph.edges` lists exactly the edges, each from its earlier endpoint in node order |
| Graphs.EdgeListOnce | lecture_tasks/GraphClusterization/clusterisation.py:22 | each undirected edge is listed in exactly one direction |
| Graphs.EdgeListNoDuplicates | lecture_tasks/GraphClusterization/clusterisation.py:22 | no edge is listed twice |
| Graphs.EdgeListed | lecture_tasks/GraphClusterization/clusterisation.py:22 | every edge is listed in one direction |
| Graphs.EdgeListPairs | lecture_tasks/GraphClusterization/clusterisation.py:95 | two listed edges with the same endpoints are the same entry |
| Graphs.AddNode | lecture_tasks/GraphClusterization/clusterisation.py:74 | `add_node` adds a missing node with no neighbours and changes nothing else |
| Graphs.AddEdge | lecture_tasks/GraphClusterization/clusterisation.py:56 | `add_edge` adds exactly the missing endpoints |
| Graphs.AddEdgeAdjacency | lecture_tasks/GraphClusterization/clusterisation.py:56 | `add_edge` sets the edge with its weight and changes no other edge |
| Graphs.AddEdgeSubgraph | lecture_tasks/GraphClusterization/clusterisation.py:56 | adding an edge of g to a subgraph of g keeps it a subgraph and keeps its edges |
| Graphs.AddEdgesSnoc | lecture_tasks/GraphClusterization/clusterisation.py:73 | `add_weighted_edges_from` adds the edges one by one in order |
| Graphs.AddEdgesEnds | lecture_tasks/GraphClusterization/clusterisation.py:73 | every edge of the result was already there or joins the same two nodes as one of the added edges |
| Graphs.AddEdgesSubgraph | lecture_tasks/GraphClusterization/clusterisation.py:73 | adding edges of g gives a subgraph of g containing every added edge |
| Graphs.AddEdgesValid | lecture_tasks/GraphClusterization/clusterisation.py:73 | the result is a consistent graph containing both endpoints of every edge |
| Graphs.AddNodesValid | lecture_tasks/GraphClusterization/clusterisation.py:74 | `add_nodes_from` adds the missing nodes with no neighbours |
| Graphs.RemoveEdge | lecture_tasks/GraphClusterization/clusterisation.py:98 | `remove_edge` keeps the node set |
| Graphs.RemoveEdgeAdjacency | lecture_tasks/GraphClusterization/clusterisation.py:98 | it removes exactly the edge between the two endpoints |
| Graphs.InsertByWeight | lecture_tasks/GraphClusterization/clusterisation.py:95 | an insertion step of the sort adds exactly one edge |
| Graphs.InsertByWeightSorted | lecture_tasks/GraphClusterization/clusterisation.py:95 | it keeps the list heaviest first |
| Graphs.SortByWeight | lecture_tasks/GraphClusterization/clusterisation.py:95 | `sorted(..., reverse=True)` by weight is heaviest first |
| Graphs.SortByWeightPermutes | lecture_tasks/GraphClusterization/clusterisation.py:95 | the sort only reorders the edges |
| Graphs.SortedEdges | lecture_tasks/GraphClusterization/clusterisation.py:95 | the tree's edges heaviest first, as many as `graph.edges` lists |
| Graphs.SortedEdgesListed | lecture_tasks/GraphClusterization/clusterisation.py:95 | a permutation of `graph.edges`: each is an edge of the graph, and no two share endpoints |
| Graphs.PruneStep | lecture_tasks/GraphClusterization/clusterisation.py:97-98 | the next heaviest edge is still in the copy, and removing it prunes one edge more |
| Graphs.PrunedHeaviest | lecture_tasks/GraphClusterization/clusterisation.py:95-98 | every edge left in the copy weighs no more than every removed edge |
| Graphs.GrowsCount | lecture_tasks/GraphClusterization/clusterisation.py:41-59 | a tree grown one new node per edge reaches one node more than it has edges |
| Graphs.GrowsAppend | lecture_tasks/GraphClusterization/clusterisation.py:56-59 | adding an edge from a reached node to a new one keeps the tree growing and reaches that node |
| Graphs.NodeCount | lecture_tasks/GraphClusterization/clusterisation.py:41 | `len(graph.nodes())` is the number of distinct nodes |
| Clusterisation.GraphWeight | lecture_tasks/GraphClusterization/clusterisation.py:19-24 | the loop returns the sum of the weights of `graph.edges`, a list that holds each undirected edge once (Graphs.EdgeListOnce, Graphs.EdgeListNoDuplicates) |
| Clusterisation.Lightest | lecture_tasks/GraphClusterization/clusterisation.py:54 | `min(..., key=weight)` is a possible edge of least weight |
| Clusterisation.CrossingEdges | lecture_tasks/GraphClusterization/clusterisation.py:44-51 | `possible_edges` holds exactly the edges from visited to unvisited nodes |
| Clusterisation.MinimumSpanningTree | lecture_tasks/GraphClusterization/clusterisation.py:27-61 | on a connected graph: one new node and one lightest crossing edge per turn, all nodes reached with `len(nodes) - 1` edges, and a subgraph; fails on an empty graph, and fails otherwise only when the graph is disconnected |
| Clusterisation.ClosedWhenNoCrossing | lecture_tasks/GraphClusterization/clusterisation.py:41-54 | no crossing edge while nodes remain unvisited means the graph is disconnected |
| Clusterisation.PrimStep | lecture_tasks/GraphClusterization/clusterisation.py:54-59 | adding a lightest crossing edge keeps Prim's order and reaches the new node |
| Clusterisation.AllReached | lecture_tasks/GraphClusterization/clusterisation.py:41 | once `len(visited)` reaches `len(nodes)`, every node is visited |
| Clusterisation.IncidentEdges | lecture_tasks/GraphClusterization/clusterisation.py:69 | `graph.edges(node)` is exactly the edges at the node; it is empty iff the node has no neighbour |
| Clusterisation.MinimumSpanningTreeShort | lecture_tasks/GraphClusterization/clusterisation.py:64-75 | fails iff some node is isolated; otherwise the result has every node and, at each node, an edge to a lightest neighbour, and is a subgraph holding no other edge: each of its edges is a lightest edge at one of its ends |
| Clusterisation.ShortTree | lecture_tasks/GraphClusterization/clusterisation.py:72-74 | the returned graph from the collected edges and nodes: every node, every collected edge, and no edge but a lightest edge at one of its ends |
| Clusterisation.ShortTreeEdges | lecture_tasks/GraphClusterization/clusterisation.py:70-73 | the graph built from the picked edges holds only them: each of its edges is a lightest edge at one of its ends |
| Clusterisation.GetClusters | lecture_tasks/GraphClusterization/clusterisation.py:92-100 | fails iff `n_clusters - 1` exceeds the edge count; otherwise exactly the `n_clusters - 1` heaviest edges are removed from a copy |
| ClusterMap.Push | lecture_tasks/ClusterMap/ClusterMap.py:32 | `heappush` adds exactly one tuple |
| ClusterMap.PushOrdered | lecture_tasks/ClusterMap/ClusterMap.py:32 | pushing keeps the heap order |
| ClusterMap.Heapify | lecture_tasks/ClusterMap/ClusterMap.py:23-24 | `heapify` keeps the tuples and orders them |
| ClusterMap.PopIsLeast | lecture_tasks/ClusterMap/ClusterMap.py:26 | `heappop` returns the lexicographically least (u, v, weight) tuple: by u first, not by weight |
| ClusterMap.StartEdges | lecture_tasks/ClusterMap/ClusterMap.py:23 | `graph.edges(start_node)` are exactly the edges at the start node |
| ClusterMap.StartHeap | lecture_tasks/ClusterMap/ClusterMap.py:21-24 | the initial heap holds every edge leaving the start node |
| ClusterMap.PushEdges | lecture_tasks/ClusterMap/ClusterMap.py:30-32 | pushes exactly the edges at v whose endpoint is unvisited |
| ClusterMap.SkipVisited | lecture_tasks/ClusterMap/ClusterMap.py:26-27 | a popped edge to a visited node is dropped, and the loop state still holds |
| ClusterMap.Visit | lecture_tasks/ClusterMap/ClusterMap.py:27-32 | a popped edge to a new node joins the tree, the node becomes visited, and the frontier is kept in the heap |
| ClusterMap.Finished | lecture_tasks/ClusterMap/ClusterMap.py:25-33 | with the heap empty, the tree is a subgraph with at most `len(nodes) - 1` edges and no edge leaves the visited nodes |
| ClusterMap.SpanningTreeCustom | lecture_tasks/ClusterMap/ClusterMap.py:17-34 | fails iff the graph has no node; grows from the first node, each edge reaching a new node; at most `len(nodes) - 1` edges; spans the start node's component; each edge is the least (u, v, weight) tuple among the edges leaving the nodes reached before it |
| ClusterMap.HeapOrderStep | lecture_tasks/ClusterMap/ClusterMap.py:25-32 | the popped edge that reaches a new node is the least tuple leaving the visited nodes, because every such edge waits in the heap |
| ClusterMap.RemovedCount | lecture_tasks/ClusterMap/ClusterMap.py:62-63 | the guarded loop removes `min(n_clusters - 1, len(edges))` edges, none when `n_clusters < 1` |
| ClusterMap.GetClusters | lecture_tasks/ClusterMap/ClusterMap.py:58-65 | never fails; exactly the `min(n_clusters - 1, len(edges))` heaviest edges are removed, and no kept edge is heavier than a removed one |
| ClusterMap.Codes | lecture_tasks/ClusterMap/ClusterMap.py:40-41 | the codes of the sites, in order |
| ClusterMap.GenerateGraphData | lecture_tasks/ClusterMap/ClusterMap.py:37-55 | `nodes` is the codes of all sites but the last; `edges` is the per-site edge lists in site order; `max_distance` is 400 unless given |
| ClusterMap.SiteData | lecture_tasks/ClusterMap/ClusterMap.py:42-54 | one site's edges: the in-range later sites, or the single fallback edge |
| ClusterMap.NearHasPair | lecture_tasks/ClusterMap/ClusterMap.py:45-48 | every later site within `max_distance` gets an edge |
| ClusterMap.GraphDataHasNearPairs | lecture_tasks/ClusterMap/ClusterMap.py:40-48 | every pair of sites within `max_distance` is linked from the earlier one |
| ClusterMap.NearEmpty | lecture_tasks/ClusterMap/ClusterMap.py:47-49 | the flag stays set iff no later site is within `max_distance` |
| ClusterMap.MinDistanceIsLeast | lecture_tasks/ClusterMap/ClusterMap.py:42-52 | `min_distance` is at most every later distance and at most `NA_MAX_DISTANCE`, and equals one of them |
| ClusterMap.FallbackToLastSite | lecture_tasks/ClusterMap/ClusterMap.py:53-54 | as written, a site with nothing in range gets one edge to the last site, weighted `min_distance` |
| ClusterMap.FallbackWeightMismatch | lecture_tasks/ClusterMap/ClusterMap.py:53-54 | sites at 500 and 900, range 400: the edge goes to the site at 900 but weighs 500 |
| ClusterMap.Nearest | lecture_tasks/ClusterMap/ClusterMap.py:50-52 | the first later site at the least distance (`min_dest`) |
| ClusterMap.CorrectedFallbackIsNearest | lecture_tasks/ClusterMap/ClusterMap.py:50-54 | with `min_dest`, the fallback edge joins the first nearest later site and weighs exactly its distance |

## Left out

- `NDArray::fillRandom` is left out: it depends on `srand(time(NULL))` and `rand()`.
- `NDArray::ndaPrint` is left out: it is console output, and it calls a member `shapes` does not have.
- Element types other than `int` are left out. So is the `int` accumulator in `matMul`, which only matters for non-integer types.
- NDArray: 32-bit overflow of `int` arithmetic is not modelled (it is undefined behaviour in C++); integers are unbounded.
- NDArray: the C++ `assert`s and undefined behaviour are preconditions, not failures. These cover a negative index, a 2-D index on a rank-1 array, division by zero, and `min`/`max` on an empty array.
- NDArray: `operator=` returns `*this` for chaining; the reference result is not modelled.
- `hash_buz` (uses `random.randint`) and `hash_default` (Python's built-in `hash`) are left out.
- `find_duplicates`: opening and reading files is the function parameter `read`, and the `time.perf_counter` timing and `total_time` are dropped.
- Hashes take bytes. `str` inputs, whose characters cannot be xored with an int in Python, are not modelled.
- TreeSerialization: names are byte strings, so UTF-8 encoding and decoding are left out.
- TreeSerialization: values are 32-bit float patterns, so rounding a Python float to float32 is left out.
- TreeSerialization: `struct.pack("i")` is modelled as little-endian, while Python uses the native byte order.
- TreeSerialization.Decode: a negative name length is rejected, where Python's slices would count from the end of the buffer.
- TreeSerialization.Decode: a child that reports a non-positive size is rejected. In Python a size of 0 makes the loop run forever. A negative size moves the cursor backwards, and once the cursor is negative `data_childs[cursor:]` slices from the end of the buffer, so Python re-reads earlier bytes and may raise, loop forever or stop.
- TreeSerialization.FromDict: a name, value or child list of another type than `to_dict` writes is rejected. `from_dict` builds a Node holding such a value, which the model's `Node` cannot hold.
- TreeSerialization: a `Node` is a value, so sharing one child object between two parents (aliasing) is not modelled.
- The module-level demo programs, `__str__`/`__repr__` and printing are left out. The demo trees are used only as test vectors in lemmas.
- Widgets: combo box items are strings, and `map(str, items)` of other item types is not modelled.
- Widgets: `from_binary` is recursive in Python; it is a loop here, with the same state (`number`, `history`, `buf_generation`).
- Widgets.Gui.FromBinary: the ensures state the shape of what is rebuilt (a new main window first, earlier widgets untouched). They do not state the decoded tree, because the reader as written does not reproduce it (see Findings).
- Widgets.ReadKind: a non-digit `h_buf` character, `int()` of a non-numeric max_length and an unknown alignment digit fail the read, where Python raises. `int()` also accepts surrounding whitespace, underscores between digits and non-ASCII digits; the model's `ParseInt` rejects those.
- Graphs: nodes and weights are integers. Node names and float weights are not modelled.
- Graphs: within a node, neighbours are listed in node order rather than in edge insertion order.
- Graphs: iteration over Python sets and dicts (`visited`, `graph[v]`) visits elements in an order the model leaves open.
- Clusterisation.MinimumSpanningTree: the random start node is `nodes[pick % len(nodes)]` for a parameter `pick`.
- Clusterisation.MinimumSpanningTree: minimality of the total weight (the cut property) is not proved. The contract states Prim's invariant: each edge was a lightest crossing edge when added.
- `draw_graph`, `nx.connected_components` and the drawing call in `get_clusters` are left out. The clusters are the connected components of the returned graph, which the contract describes by its edge set.
- ClusterMap: the heap is kept as the ordered sequence of its tuples, so the binary-heap array layout is not modelled. `heappop` still returns the least tuple.
- ClusterMap: `get_distance` (haversine in floating point) is the function parameter `distance`, with integer results.
- ClusterMap: the GeoJSON, shapely and file helpers, `process_clustering` and `process_file` are left out.
- The map_task benchmark and hash_task's `main.py` (glob and printing) are not part of this model.

## Findings

| source | as written | input that shows it | evidently intended | confidence | as-written member | corrected member |
|---|---|---|---|---|---|---|
| ndarray_task/headers/NDArray.h:67-75 | `operator=` clears `data` before copying from `v`, so `a = a` empties the store while `dimsAmount` stays | a one-element array assigned to itself | a self-assignment check, so `a = a` changes nothing | not executed | NDArrays.SelfAssignmentEmptiesStore | NDArrays.SelfAssignmentKeepsStore |
| serialization_task/main.py:57-66 | the Layout case reads `buf_generation[h_buf]` without first appending 0 for a parent that has no entry yet, as the LineEdit and ComboBox cases do | `00/AB//10/1//11/1//`: a layout under a layout, with `buf_generation == [1]` at `h_buf == 1` | a layout under a parent without an entry gets one, set to 0 | not executed | Widgets.NestedLayoutFails | Widgets.CorrectedEntered |
| serialization_task/main.py:49-55 | the title loop starts on the class code and stops when the next character is '/', so the title read back is the generation digit | the record `00/Application//` | the title between the first '/' and the "//" | not executed | Widgets.TitleIsGenerationDigit | Widgets.CorrectedReadBack |
| serialization_task/main.py:70-77 | the max_length loop stops on the last digit without appending it | the payload `20` reads back as `2` | all digits up to the "//" | not executed | Widgets.MaxLengthDropsLastChar | Widgets.CorrectedReadBack |
| lecture_tasks/ClusterMap/ClusterMap.py:53-54 | the fallback edge uses `dest`, the last later site, with the weight `min_distance` of the nearest site | distances 500 to site 2 and 900 to site 3, `max_distance` 400: edge (1, 3, 500) | `min_dest`, the nearest later site, with its distance | not executed | ClusterMap.FallbackWeightMismatch | ClusterMap.CorrectedFallbackIsNearest |
