# HARP core: variables, array utilities and operation analysis

This project models three parts of the HARP C library (libharp) in Dafny and
proves what they promise.

- **harp_variable** (`libharp/harp-variable.c`). A variable is a class with
  the fields of the C struct:
  - name, data type, number of dimensions;
  - the fixed-size arrays of dimension types and lengths;
  - the element count and the data buffer;
  - description, unit, and the valid range.

  The calls that reshape a variable in place are methods that rewrite those
  fields:
  - rearrange a dimension, filter a dimension, resize a dimension;
  - add a dimension, remove a dimension;
  - convert the data type.

  Creation, copy, the dimension-type queries and verify are modelled too.

  The data buffer is an `array` of elements. An element is an integer, an
  opaque floating-point token, or a pointer to a string object (`CString`,
  possibly NULL). String identity stands for pointer identity. This lets the
  contracts say which strings stay in the buffer, which are released, and
  which are fresh copies from strdup. They also say that no string is ever
  owned twice.

  Each reshaping call splits the buffer as
  `num_elements = groups * axis length * block`. The result is stated
  through one reference function, `Layout.Gather`: slot t of every group
  becomes slot ids[t]. Separate lemmas give Gather, Kept, Resized and the
  replication their meaning.
- **Array utilities** (`libharp/harp-utils.c`):
  - the element count;
  - invert an axis; transpose an array by a permutation of its dimensions;
  - null a buffer; replace the fill value (integer types);
  - the valid range per type;
  - the fixed-width character array made from a string array;
  - basename and extension removal.
- **Operation analysis** (`libharp/harp-operation-analyze.c`). This turns the
  syntax tree of a HARP operations program into operations:
  - the table of function prototypes and the lookup in it;
  - the argument checks;
  - one `create_*` function per operation;
  - `operation_from_function_call` and `create_program`.

  Each C function with a loop is a method whose loops are proved against a
  specification function. The C functions without loops (create_comparison,
  the other create_* functions, the verify_* checks) are Dafny functions with
  contracts of their own. The properties are proved about those functions.

Modules:

| module | role |
|---|---|
| `Wrappers` | Option, Result |
| `HarpTypes` | data types, dimension types, elements, string objects, MaxNumDims = 8 |
| `Layout` | products of lengths; the group/slot/block index `Pos`; `Gather` |
| `Blocks` | memmove, memset, strdup and realloc on element buffers |
| `Reorder` | the in-place cycle-following reorder of one group (rearrange's inner loop) |
| `Rearrange` | rearrange's group loop |
| `Filter` | filter's group loop |
| `Resize` | resize's group loops |
| `Replicate` | add_dimension's group loop |
| `Conversion` | the C casts between the numeric types |
| `Variables` | the `Variable` class and its operations |
| `Utils` | the array and string utilities |
| `Transpose` | harp_array_transpose |
| `OperationAnalyze` | the operation analyser |

## Model

| member | source | states |
|---|---|---|
| Variables.Variable.RearrangeDimension | libharp/harp-variable.c:48-353 | An empty id list, an axis out of range, a variable without elements, or an id outside the axis each fail with InvalidArgument, and nothing changes; those are the only failures. On success: the axis length becomes the number of ids; the count becomes groups*ids*block; slot t of every group holds the old slot ids[t]; the first use of a slot keeps its very strings; later copies hold fresh strings; the strings of unused slots are no longer referenced; every other field is unchanged; the variable stays valid. |
| Variables.CheckIds | libharp/harp-variable.c:94-102 | The id check passes exactly when every id lies in [0, axis length). |
| Utils.MultiplyLengths | libharp/harp-variable.c:104-115 | The group and block loops (here and in harp_array_invert) compute the product of the lengths before and after the axis. |
| Variables.Variable.SplitAt | libharp/harp-variable.c:104-115 | For a variable with elements, the groups, the axis length and the block are positive, and their product is the element count. |
| Reorder.BuildMoveToId | libharp/harp-variable.c:146-156 | move_to_id holds, for each source slot, the first destination that uses it, or -1. |
| Reorder.FirstTableFirstUse | libharp/harp-variable.c:146-156 | A table entry names destination t exactly when t is the first use of its source slot. |
| Reorder.ReorderBlocks | libharp/harp-variable.c:237-324 | In the in-place cycle-following reorder of one group: slot t ends up with the contents of source block ids[t]. The first destination of a block gets the very block; other destinations get fresh strings. No two elements share a string, and nothing outside the group's slots changes. |
| Rearrange.RunGroups | libharp/harp-variable.c:179-327 | The group loop runs forwards when groups shrink and backwards when they grow. Every group ends up placed, and the copies of later uses hold fresh strings. |
| Rearrange.RearrangeData | libharp/harp-variable.c:104-346 | At buffer level: the new buffer holds the gather of the old one by ids. First uses keep the very elements, later uses hold fresh strings, and no string is shared. |
| Rearrange.GatherKeeps | libharp/harp-variable.c:207-229 | A string of the old buffer is in the gathered buffer exactly when its slot is among the ids. |
| Rearrange.RearrangeReleases | libharp/harp-variable.c:207-229 | After the rearrangement, an old string is still referenced exactly when its slot is asked for, so the strings freed are those of the unused slots. |
| Variables.RearrangeOutcome | libharp/harp-variable.c:179-350 | The buffer-level guarantees make a valid buffer of the data type that is Rearranged from the old one. |
| Layout.Gather | libharp/harp-variable.c:62-64 | Slot t of every group of the result is slot ids[t] of the same group of the input, at every block offset. |
| Layout.GatherIdentity | libharp/harp-variable.c:417-421 | Gathering every slot once, in order, changes nothing. |
| Layout.GatherCompose | libharp/harp-variable.c:48-353 | Two successive rearrangements equal one rearrangement by the composed id list. |
| Variables.CountMask | libharp/harp-variable.c:406-410 | The counting loop returns the number of set mask entries. |
| Filter.Kept | libharp/harp-variable.c:440-478 | The kept indices are set entries, strictly increasing, and there are Count(mask) of them. |
| Filter.KeptPrefix | libharp/harp-variable.c:447-477 | The indices kept from a prefix of the mask are a prefix of those kept from the whole mask. |
| Filter.KeptExactly | libharp/harp-variable.c:447-477 | An index is kept exactly when its mask entry is set. |
| Filter.CountBounds | libharp/harp-variable.c:411-421 | The count equals the length exactly when every entry is set, and is 0 exactly when none is. |
| Filter.KeptAll | libharp/harp-variable.c:417-421 | A mask with every entry set keeps 0..D-1 in order, so filtering leaves the buffer unchanged. |
| Filter.Compact | libharp/harp-variable.c:447-477 | The compaction loop moves the kept blocks of a group, in order, to the front of the group's new place. Nothing outside that window changes. |
| Filter.CompactStep | libharp/harp-variable.c:449-476 | One pass of that loop: a kept block moves to the next destination slot and the count of kept blocks advances; a dropped block is passed over, and the compaction state is kept. |
| Filter.FilterData | libharp/harp-variable.c:440-487 | The new buffer is the gather of the old one by the kept indices, and no string is shared. |
| Filter.FilterReleases | libharp/harp-variable.c:447-477 | A string is still referenced after filtering exactly when the mask keeps its block. |
| Variables.FilterOutcome | libharp/harp-variable.c:440-491 | Filtering keeps a valid buffer valid, and releases the strings of exactly the masked-out slots. |
| Variables.Variable.FilterDimension | libharp/harp-variable.c:369-494 | It fails with InvalidArgument, changing nothing, exactly when the axis is out of range, the variable has no elements, or no mask entry is set. Otherwise: the axis length becomes the count of set entries; the buffer is the gather by the kept indices; a string survives exactly when its slot is kept; every other field is unchanged. |
| Resize.Resized | libharp/harp-variable.c:553-632 | Block t of every group is block t of the input when t < D, and the fill value otherwise. |
| Resize.ResizedSame | libharp/harp-variable.c:534-538 | Resizing to the current length changes nothing. |
| Resize.ResizedShrink | libharp/harp-variable.c:553-580 | Truncation is the gather of slots 0..L-1. |
| Resize.ResizedRoundTrip | libharp/harp-variable.c:592-632 | Extending and then truncating back restores the buffer. |
| Resize.ResizeReleases | libharp/harp-variable.c:561-571 | A string survives the resize exactly when its block is among the first L. |
| Resize.ResizedUnique | libharp/harp-variable.c:553-632 | Resizing shares no string when the fill value owns none. |
| Resize.ShrinkLoop | libharp/harp-variable.c:553-580 | The forward memmove loop leaves every group with its first L blocks, packed. |
| Resize.GrowLoop | libharp/harp-variable.c:592-632 | The backward memmove-and-fill loop produces the Resized buffer. |
| Resize.ResizeData | libharp/harp-variable.c:540-632 | The buffer after shrink, realloc and grow is the Resized one. |
| Variables.ResizeOutcome | libharp/harp-variable.c:553-635 | Resizing keeps a valid buffer valid and shares no string. It releases the strings of exactly the slots cut off. |
| Variables.Variable.ResizeDimension | libharp/harp-variable.c:508-638 | It fails with InvalidArgument, changing nothing, exactly when the axis is out of range or the length is not positive. Otherwise: the axis gets the new length; the buffer is Resized with the type's fill value (0, NaN or NULL); the strings of slots cut off are released. |
| Replicate.ReplicateGroup | libharp/harp-variable.c:744-772 | Block i becomes L copies. Copy 0 holds the very elements, later copies hold fresh strings, and nothing outside the group's window changes. |
| Replicate.ReplicateData | libharp/harp-variable.c:721-773 | The new buffer holds every block L times. Copy 0 keeps the very elements, the other copies get fresh strings, and no string is shared. |
| Variables.FindLengthConflict | libharp/harp-variable.c:706-719 | The scan reports an axis of the same type with a different length exactly when one exists. |
| Variables.InsertCount | libharp/harp-variable.c:721-729 | The block is the product of the lengths from the new axis on, and the groups are the count divided by the block. The new count is groups * length * block. |
| Variables.InsertAt | libharp/harp-variable.c:775-783 | The shift loop moves the entries from k on one place up and stores the new entry at k. |
| Variables.HasTypeInsert | libharp/harp-variable.c:775-783 | After the insertion, an axis of type t exists exactly when t is the new type or was present before. |
| Variables.InsertConsistent | libharp/harp-variable.c:721-783 | Inserting an axis with the data replicated along it keeps the variable's structure. |
| Variables.Variable.AddDimension | libharp/harp-variable.c:651-786 | Failure with no change happens exactly when: the index is out of range; the length is not positive; there are already eight axes; there are no elements; a time axis is added anywhere but at index 0, or at index 0 when axis 0 is already a time axis; or a named type already has another length. On success the axis is inserted in both arrays, the data is replicated along it (copy 0 keeps the strings, later copies are fresh), and the count is groups*length*block. |
| Variables.RemoveAt | libharp/harp-variable.c:808-814 | The shift loop moves the entries after k one place down; the last entry keeps its value. |
| Variables.RemoveCount | libharp/harp-variable.c:808-814 | Dropping an axis of length 1 keeps the element count. |
| Variables.RemoveConsistent | libharp/harp-variable.c:808-814 | Dropping an axis of length 1 keeps the variable's structure. |
| Variables.Variable.CollapseAxis | libharp/harp-variable.c:808-814 | The axes after the removed one move down a place, and the count and the data are unchanged. |
| Variables.Variable.RemoveDimension | libharp/harp-variable.c:799-817 | It fails, changing nothing, exactly when the axis or the index is out of range or the variable has no elements. Otherwise the data is rearranged to the one slot, the other slots' strings are released, and the axis is dropped. |
| Variables.CheckNewAxes | libharp/harp-variable.c:842-877 | The checks pass exactly when no time axis comes after the first axis and no named type has two lengths. |
| Variables.NewAxesConform | libharp/harp-variable.c:842-877 | Axes that harp_variable_new accepts, with positive lengths, pass harp_variable_verify's axis rules. |
| Variables.ShapeAxes | libharp/harp-variable.c:893-898 | The shape loop copies the types (Independent when none are given) and the lengths, and their product is the count. |
| Variables.Variable.New | libharp/harp-variable.c:834-927 | It fails exactly for rejected axis lists. Otherwise it returns a fresh valid variable: the given shape, all-zero (NULL) data, no description or unit, and the type's full valid range. |
| Variables.DuplicateStrings | libharp/harp-variable.c:1047-1061 | The copy has the same contents, fresh strings, and no shared strings; NULL stays NULL. |
| Variables.CopyAsWritten | libharp/harp-variable.c:1047-1061 | Copying as written is defined exactly when no string is NULL, and then has the same contents. |
| Variables.CopyAsWrittenFaults | libharp/harp-variable.c:592-632 | A string variable resized to a longer axis holds NULL strings, so copying it as written reaches strdup(NULL). |
| Variables.Variable.Copy | libharp/harp-variable.c:979-1070 | A fresh valid variable with every field equal and the same contents. Non-string data is copied as is; every string is a fresh allocation. |
| Conversion.Wrap | libharp/harp-variable.c:1153-1393 | The C cast to an integer type lies in the type's range and is congruent to the value modulo the size of the range. |
| Conversion.WrapExact | libharp/harp-variable.c:1153-1393 | A value already in range is kept. |
| Conversion.Cast | libharp/harp-variable.c:1153-1393 | A converted element fits the target type and owns no string. Integer-to-integer casts are congruent modulo the range size. |
| Conversion.ConvertAll | libharp/harp-variable.c:1153-1393 | The converted buffer has the same length, fits the target type, and owns no string. |
| Conversion.WidenRoundTrip | libharp/harp-variable.c:1153-1393 | Widening an integer buffer and narrowing it back gives the buffer back. |
| Conversion.NarrowKeepsInRange | libharp/harp-variable.c:1153-1393 | Narrowing keeps every value the narrower type holds, and moves the others by a multiple of its range. |
| Variables.ConvertBuffer | libharp/harp-variable.c:1153-1393 | The element loop fills a fresh buffer with the element-wise cast. |
| Variables.Variable.ConvertDataType | libharp/harp-variable.c:1118-1400 | Conversion to or from string between different types fails with InvalidArgument, and only that. A same-type or empty conversion just sets the type. Otherwise the data and the valid range bounds are cast into a fresh buffer; shape, name, unit and description stay. |
| Variables.Variable.HasDimensionType | libharp/harp-variable.c:1410-1423 | True exactly when some axis has the type. |
| Variables.Variable.HasDimensionTypes | libharp/harp-variable.c:1434-1453 | True exactly when the axes are n axes of the given types, in order. |
| Variables.FirstBadAxis | libharp/harp-variable.c:1513-1563 | A reported violation is the violation of some axis among the first n. |
| Variables.FirstBadAxisNone | libharp/harp-variable.c:1513-1563 | The axis scan finds nothing exactly when the axes conform (time only first, positive lengths, one length per named type). |
| Variables.FirstBadAxisStops | libharp/harp-variable.c:1513-1563 | Once an axis fails, every longer scan reports that axis. |
| Variables.ScanAxes | libharp/harp-variable.c:1513-1563 | The axis loop with its table of first lengths returns FirstBadAxis. |
| Variables.Variable.VerdictConforms | libharp/harp-variable.c:1474-1607 | The ordered checks all pass exactly when the variable conforms. |
| Variables.Variable.Verify | libharp/harp-variable.c:1474-1607 | Succeeds exactly when the variable conforms; otherwise reports the first rule broken, in the library's order. |
| Utils.ValidMinFor | libharp/harp-utils.c:126-153 | The minimum fits the type and is below every value of an integer type; for floating types it is minus infinity. |
| Utils.ValidMaxFor | libharp/harp-utils.c:159-186 | The maximum fits the type and is above every value of an integer type; for floating types it is plus infinity. |
| Utils.GetNumElements | libharp/harp-utils.c:486-498 | The count is the product of the lengths: 1 for no dimensions, positive when all are positive, 0 when one is 0. |
| Utils.ProductHasZero | libharp/harp-utils.c:486-498 | A zero length makes the count zero. |
| Layout.ProductPositive | libharp/harp-utils.c:486-498 | Positive lengths give a positive count. |
| Utils.MaxLength | libharp/harp-utils.c:506-525 | The result bounds every non-NULL string's length and is attained (0 when no string). |
| Utils.GetMaxStringLength | libharp/harp-utils.c:506-525 | The loop returns MaxLength. |
| Utils.PackedField | libharp/harp-utils.c:542-585 | Field j of the packed array is string j's text, NUL-padded to the width. |
| Utils.PackStrings | libharp/harp-utils.c:556-583 | The NUL fill and copy loop produce the packed array. |
| Utils.GetCharArray | libharp/harp-utils.c:542-585 | The width is the larger of the longest length and the minimum, and the array packs every string. |
| Utils.PackedRoundTrip | libharp/harp-utils.c:542-585 | Reading field j back as a C string gives string j (empty for NULL). |
| Utils.ArrayNull | libharp/harp-utils.c:669-695 | The first n elements become the type's fill value (0, NaN, NULL); the rest is untouched. |
| Utils.NulledIsFill | libharp/harp-utils.c:647-695 | Nulled elements fit the type and own no string, and nulling twice equals nulling once. |
| Utils.ReplaceFillValue | libharp/harp-utils.c:704-743 | The integer loops produce Replaced. |
| Utils.ReplacedProperties | libharp/harp-utils.c:704-743 | After a replacement with a non-zero fill, no element among the first n holds it. Every other element is kept, the buffer still fits its type, and a second replacement changes nothing. |
| Utils.ReplaceAfterNull | libharp/harp-utils.c:669-743 | A fill replacement after nulling changes nothing. |
| Utils.Reversal | libharp/harp-utils.c:778-893 | The slot order that reverses an axis: slot t takes slot D-1-t. |
| Utils.InvertTwice | libharp/harp-utils.c:778-893 | Inverting an axis twice gives the buffer back. |
| Utils.SwapSlots | libharp/harp-utils.c:868-890 | Two slots trade places through the buffer, and the other slots stay. |
| Utils.InvertData | libharp/harp-utils.c:789-891 | The swap loops reverse the axis in every group. |
| Utils.ArrayInvert | libharp/harp-utils.c:778-893 | The array afterwards is the old one with axis k reversed in every combination of the other axes. |
| Transpose.InvertOrder | libharp/harp-utils.c:962-979 | With the unused marker corrected, the check succeeds exactly for a permutation and returns its inverse. |
| Transpose.AcceptedAsWritten | libharp/harp-utils.c:962-979 | The order check as written, with 0 as the unused marker. |
| Transpose.RepeatedFirstAccepted | libharp/harp-utils.c:962-979 | The order [0, 0] passes the check as written, although it is no permutation. |
| Transpose.ReverseLengths | libharp/harp-utils.c:941-944 | rdim is the lengths in reverse. |
| Transpose.ReversedStrides | libharp/harp-utils.c:946-954 | With no order, stride j is the product of the reversed lengths after j. |
| Transpose.ReversedStridesFor | libharp/harp-utils.c:946-954 | Those strides are the strides of the reversal order. |
| Transpose.OrderStrides | libharp/harp-utils.c:985-989 | With an order, stride j is the destination weight of the dimension that source dimension n-1-j becomes. |
| Transpose.Advance | libharp/harp-utils.c:1006-1021 | The odometer step moves to the next source element, and the running offset follows it. |
| Transpose.PlaceAll | libharp/harp-utils.c:1006-1021 | The walk writes every source element at its moved offset in dst. |
| Transpose.Scatter | libharp/harp-utils.c:995-1084 | The array afterwards holds its transpose. |
| Transpose.Transposed | libharp/harp-utils.c:915-1087 | The transposed array has the length of the input. |
| Transpose.Source | libharp/harp-utils.c:915-1087 | The source offset of a destination offset lies inside the array and moves to it. |
| Transpose.TransposeBack | libharp/harp-utils.c:915-1087 | Transposing with the inverse order restores the array. |
| Transpose.ProductPermuted | libharp/harp-utils.c:915-1087 | Permuting the dimensions keeps the element count. |
| Transpose.MovedBack | libharp/harp-utils.c:915-1087 | Moving by a permutation and then by its inverse puts every element back. |
| Transpose.InverseUnique | libharp/harp-utils.c:962-979 | A permutation determines its inverse. |
| Transpose.CarryReach | libharp/harp-utils.c:1011-1020 | The carry loop stops at the first position that does not wrap, or at n when all wrap. |
| Transpose.CarryReachIff | libharp/harp-utils.c:1011-1020 | The carry runs past the last dimension exactly when the index stands at the last element. |
| Transpose.LastAdvanceOverruns | libharp/harp-utils.c:1006-1021 | The advance that follows the last element carries through every dimension to position n. |
| Transpose.GuardedAdvanceStaysInside | libharp/harp-utils.c:1006-1021 | Advanced only before an element that exists, the carry stops inside the dimensions. |
| Transpose.ArrayTranspose | libharp/harp-utils.c:915-1087 | It fails with InvalidArgument, changing nothing, exactly for an order that is no permutation (once there is more than one dimension and element). It does nothing for at most one dimension or element. Otherwise the array holds its transpose (by the reversal when no order is given). |
| Utils.LastIndex | libharp/harp-utils.c:1129-1141 | strrchr: -1 or the position of the character, with no later occurrence. |
| Utils.Basename | libharp/harp-utils.c:1094-1122 | For both builds: NULL stays NULL. Otherwise the result holds no separator ('/', and also '\\' on Windows), is a suffix of the path, and is preceded by a separator when shorter. |
| Utils.BasenameIdempotent | libharp/harp-utils.c:1094-1122 | Taking the basename twice changes nothing, on either build. |
| Utils.LastSeparator | libharp/harp-utils.c:1103-1117 | The separator found is the last character of the path that is a separator for the build, or -1 when there is none. |
| Utils.ScanSeparators | libharp/harp-utils.c:1104-1114 | The Windows cursor loop returns the last '\\' or '/' of the path, or -1. |
| Utils.PosixSeparatorIsStrrchr | libharp/harp-utils.c:1116 | On a POSIX build the separator search is strrchr(path, '/'). |
| Utils.WindowsBasenameWithinPosix | libharp/harp-utils.c:1103-1119 | The Windows basename is a suffix of the POSIX one. |
| Utils.RemoveExtension | libharp/harp-utils.c:1129-1141 | NULL stays NULL. A path with a '.' is cut just before its last '.'; a path without one is kept. |
| Utils.RemoveAppendedExtension | libharp/harp-utils.c:1129-1141 | Appending '.' and an extension without '.' and then removing the extension gives the stem back. |
| Utils.RemoveExtensionInPlace | libharp/harp-utils.c:1129-1141 | On the character buffer, the C string read back is RemoveExtension of the old one, and the only change is a NUL. |
| Utils.LastDot | libharp/harp-utils.c:1135 | The scan strrchr performs: the index of the last '.' of the C string held in the buffer, or -1 when it has none. |
| OperationAnalyze.BuiltinsWellFormed | libharp/harp-operation-analyze.c:61-77 | The table has 14 entries with distinct names. |
| OperationAnalyze.BuiltinArities | libharp/harp-operation-analyze.c:61-77 | A fixed arity equals the number of argument types; variadic entries have arity -1 and no types. |
| OperationAnalyze.EntryKinds | libharp/harp-operation-analyze.c:61-77 | Every entry's arity and argument kinds are those its create_* function reads. |
| OperationAnalyze.FindPrototype | libharp/harp-operation-analyze.c:79-92 | A found entry is in the table under that name; none is found exactly when no entry has the name. |
| OperationAnalyze.LookupFindsEntry | libharp/harp-operation-analyze.c:79-92 | Looking up an entry's name finds that entry. |
| OperationAnalyze.LookupPrototype | libharp/harp-operation-analyze.c:79-92 | The table scan returns FindPrototype. |
| OperationAnalyze.IsHomogeneousList | libharp/harp-operation-analyze.c:94-119 | True exactly for a list node whose elements are all of one kind. |
| OperationAnalyze.HomogeneousList | libharp/harp-operation-analyze.c:94-119 | The comparison loop returns IsHomogeneousList. |
| OperationAnalyze.DimensionListOf | libharp/harp-operation-analyze.c:149-177 | More than eight names fail at the ninth name. Success happens exactly when every name parses, and gives their types in order. |
| OperationAnalyze.GetDimensionList | libharp/harp-operation-analyze.c:149-177 | The buffer loop returns DimensionListOf. |
| OperationAnalyze.NoQualifiers | libharp/harp-operation-analyze.c:179-203 | Succeeds exactly without dimension list and unit; the dimension list is reported first, each at its offset. |
| OperationAnalyze.NoUnit | libharp/harp-operation-analyze.c:205-221 | Succeeds exactly without a unit; the unit is reported at its offset. |
| OperationAnalyze.Construct | libharp/harp-operation-analyze.c:239-253 | A constructor call succeeds exactly when the constructor accepts the operation, and returns it. |
| OperationAnalyze.ValidRangeOf | libharp/harp-operation-analyze.c:255-268 | A qualified variable fails with the qualifier error; success gives the valid-range filter on the plain name. |
| OperationAnalyze.IntersectsAreaOf | libharp/harp-operation-analyze.c:316-333 | A unit on the percentage fails at the unit; success gives the filter with the file name and the number. |
| OperationAnalyze.DerivationOf | libharp/harp-operation-analyze.c:335-363 | A missing dimension list fails at the argument, and more than eight names fail at the ninth. Success gives the name, the parsed dimensions in order, and the unit. |
| OperationAnalyze.CreateVariableDerivation | libharp/harp-operation-analyze.c:335-363 | The method returns DerivationOf. |
| OperationAnalyze.CheckSelection | libharp/harp-operation-analyze.c:378-393 | It succeeds exactly when every argument is an unqualified name; otherwise it reports the first argument that is not. |
| OperationAnalyze.Names | libharp/harp-operation-analyze.c:404-411 | The names are those of the arguments, in order. |
| OperationAnalyze.CopyNames | libharp/harp-operation-analyze.c:404-411 | The copy loop returns Names. |
| OperationAnalyze.SelectionSpec | libharp/harp-operation-analyze.c:365-479 | No arguments fail at the list. Success happens exactly for unqualified names the constructor accepts, and lists them in order as inclusion or exclusion. Otherwise the first bad argument is reported. |
| OperationAnalyze.CreateVariableSelection | libharp/harp-operation-analyze.c:365-479 | The two loops return SelectionOf. |
| OperationAnalyze.RegridCollocatedAsWritten | libharp/harp-operation-analyze.c:677-699 | As written, a target dataset longer than one character is refused (at its name). |
| OperationAnalyze.RegridCollocatedOf | libharp/harp-operation-analyze.c:677-699 | With the qualifier checks honoured, both qualified arguments must be plain names, and the target is at most one character. |
| OperationAnalyze.QualifiedTargetAccepted | libharp/harp-operation-analyze.c:684-685 | a{time} as target dataset is accepted as written, but refused at its dimension list when the checks are honoured. |
| OperationAnalyze.FlattenOf | libharp/harp-operation-analyze.c:701-724 | A qualified argument fails with the qualifier error, and an unknown dimension name fails too. Success flattens the parsed dimension. |
| OperationAnalyze.ComparisonOf | libharp/harp-operation-analyze.c:481-527 | A string operand with an operator other than == or != fails. Success gives the variable and the operator, the string or the number, and the unit only for a quantity. |
| OperationAnalyze.Texts | libharp/harp-operation-analyze.c:618-622 | The texts of the nodes, in order. |
| OperationAnalyze.Numbers | libharp/harp-operation-analyze.c:648-652 | The numbers of the nodes, in order. |
| OperationAnalyze.MembershipOf | libharp/harp-operation-analyze.c:559-666 | A unit on a string list is refused first, then a mixed list. Success gives the variable, in or not in, and the values in order. |
| OperationAnalyze.CreateMembershipTest | libharp/harp-operation-analyze.c:559-666 | The copy loops return MembershipOf. |
| OperationAnalyze.FirstMismatch | libharp/harp-operation-analyze.c:756-766 | The first argument whose kind differs from the prototype's, or none. |
| OperationAnalyze.ArgumentCheck | libharp/harp-operation-analyze.c:747-767 | The check passes exactly for a variadic entry or matching argument kinds. A wrong count is reported at the argument list. |
| OperationAnalyze.ArgumentCheckReportsFirst | libharp/harp-operation-analyze.c:756-766 | With the right count, the first argument of the wrong kind is reported. |
| OperationAnalyze.CheckArguments | libharp/harp-operation-analyze.c:747-767 | The arity check and the kind loop return ArgumentCheck. |
| OperationAnalyze.CallOf | libharp/harp-operation-analyze.c:726-770 | An unknown function is reported at its name. For a known one, success implies a variadic entry or argument kinds that match the entry, and a wrong argument count is reported at the argument list. |
| OperationAnalyze.OperationFromFunctionCall | libharp/harp-operation-analyze.c:726-770 | The method returns CallOf. |
| OperationAnalyze.CreateOperation | libharp/harp-operation-analyze.c:786-817 | The dispatch on the node kind returns OperationOf. |
| OperationAnalyze.Outcomes | libharp/harp-operation-analyze.c:782-825 | The outcome of each expression, in order. |
| OperationAnalyze.Collect | libharp/harp-operation-analyze.c:782-828 | All operations in order when all succeed, otherwise the error of the first failure. |
| OperationAnalyze.CollectStep | libharp/harp-operation-analyze.c:782-825 | A failing step ends the program with its error, and a successful step appends its operation. |
| OperationAnalyze.CollectPrefixFailure | libharp/harp-operation-analyze.c:786-816 | After the first failure, later expressions change nothing. |
| OperationAnalyze.ProgramOf | libharp/harp-operation-analyze.c:772-829 | One operation per expression, in source order, exactly when all succeed; otherwise the error of the first expression that fails. |
| OperationAnalyze.CreateProgram | libharp/harp-operation-analyze.c:772-829 | The loop returns ProgramOf. |

## Left out

- Floating point. Float and double values are opaque tokens (NaN, zero, ±infinity, other bits). Casts from and to floating types are a parameter (`FloatCasts`), and NaN tests are on tokens.
- Allocation failures. malloc, realloc and strdup always succeed here, so the out-of-memory paths are not modelled. That includes the partial mutation rearrange leaves behind when strdup fails mid-loop.
- External constructors. harp_*_new, harp_parse_dimension_type and harp_unit_is_valid are not part of this model. They are parameters: `Env.accepts`, `Env.parseDimension`, and the `unitValid` argument of `Verify`.
- Error messages. The text of error messages (harp_set_error, sprintf) is not modelled; only the error kind and the character offset are.
- Verify: the checks that the data type and the dimension types are among the known ones hold by construction, because both are closed datatypes.
- Variables.Variable.New: requires 0 <= num_dimensions <= 8 and non-negative lengths. harp_variable_new checks none of these. A negative count gives a variable with a negative num_dimensions, which harp_variable_verify rejects. A count above 8 writes past the fixed dimension_type and dimension arrays, although harp_variable_add_dimension checks that bound. Neither case is modelled, because the model's variable holds exactly num_dimensions axes of at most 8.
- Integer overflow of `long`. Lengths and element counts are unbounded integers here. Three C products are not modelled as 64-bit wrap-around: harp_get_num_elements (libharp/harp-utils.c:486-498), the new_num_elements = num_blocks * length * num_block_elements product of harp_variable_resize_dimension (libharp/harp-variable.c:541-552), and the same product of harp_variable_add_dimension (libharp/harp-variable.c:721-729). The byte sizes given to malloc and realloc are not modelled either. For lengths whose product exceeds 2^63 - 1, C computes a wrapped count and buffer size, while the model reshapes the buffer to the exact count.
- Variables.Variable.Copy: requires a name, because harp_variable_copy calls strdup on it.
- harp_variable_delete and harp_variable_rename are not part of this model.
- Utils.InvertData: the typed swaps for blocks of 1, 2, 4 or 8 bytes and the general swap through a buffer are one block swap here. They have the same effect.
- Utils.GetCharArray: a zero-size allocation is an ordinary empty array here.
- Utils.ReplaceFillValue: only the integer types are modelled. The floating-point cases depend on float comparison, and the string case aborts.
- harp_get_valid_min/max: the floating-point cases give the ±infinity tokens.
- OperationAnalyze: CollocationOf, LongitudeRangeOf, PointDistanceOf, RegridOf and BitMaskOf only hand their arguments to a constructor. OperationOf is create_program's dispatch on the node kind to CallOf, MembershipOf, BitMaskOf or ComparisonOf. None of these six carries a contract of its own. Their outcomes are covered by CreateOperation and ProgramOf. In BitMaskOf, the cast of the number to uint32_t goes through a parameter of Env.
- OperationAnalyze.RegridCollocatedOf: the message that create_regrid_collocated formats passes its arguments in swapped order. Only the error kind and offset are kept.
- harp_program_from_string (the parser and the lexer) is not part of this model. The analyser starts from a syntax tree whose well-formedness is a precondition.

## Findings

| source | as written | input that shows it | evidently intended | confidence | as-written member | corrected member |
|---|---|---|---|---|---|---|
| libharp/harp-utils.c:962-979 | iorder starts all zero, and an entry that is still 0 counts as unused. The dimension named by order[0] is recorded with the value 0, so a repeat of it is not caught. | order = [0, 0] for a two-dimensional array | An order is accepted only when it is a permutation of 0..n-1 (unused marked -1). | not executed | Transpose.RepeatedFirstAccepted | Transpose.InvertOrder |
| libharp/harp-utils.c:1006-1021 | After copying the last element, the odometer advances once more. The carry wraps every position, and the loop reads rdim[n] and stride[n] and writes rindex[n]. For n < 8, rdim[n] and stride[n] are read uninitialised, while rindex[n] is zero-initialised and written in bounds. For n = 8, all three are out of bounds. | any array with more than one dimension and element, e.g. lengths [2, 3] | Advance only while another element remains. | not executed | Transpose.LastAdvanceOverruns | Transpose.GuardedAdvanceStaysInside |
| libharp/harp-variable.c:1047-1061 | Every string element goes through strdup, including NULL ones. | a string variable resized to a longer axis (its new slots are NULL), then copied | NULL strings stay NULL in the copy. | not executed | Variables.CopyAsWrittenFaults | Variables.DuplicateStrings |
| libharp/harp-operation-analyze.c:684-685 | The results of both verify_qualified_name_has_no_qualifiers calls are discarded. | regrid_collocated("result.csv", "data", a{time}, altitude) | A target dataset or vertical axis with a dimension list or unit is refused, as every other qualified-name argument is. | not executed | OperationAnalyze.QualifiedTargetAccepted | OperationAnalyze.RegridCollocatedOf |
