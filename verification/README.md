# MiniReader operator: attributes, tensor-descriptor inference and SBP signature

A Dafny model of OneFlow's `MiniReader` user operator
(`en/code/extended_topics/data_loader/mini_reader_op.cpp`). The operator is a data-reading
node that has no tensor inputs and one output, `out`. The model covers the three
pieces of logic the registration carries:

- **Attribute table.** It declares nine typed attributes. `data_dir`, `data_part_num` and
  `batch_size` have no default and are required. The other six have typed defaults. A node's
  supplied values are resolved against the table: missing defaults are filled in, and a
  required attribute that is absent, an unknown name or a wrongly typed value is rejected
  (`Attrs.Resolve`).
- **Tensor-descriptor inference** (`MiniReader.InferTensorDesc`). The output is `[local, 2]` of
  `kDouble`. When `out` is split over more than one worker, `batch_size` must divide evenly by
  `parallel_num`, and `local` is the quotient. Otherwise `local` is `batch_size`.
- **SBP signature function** (`MiniReader.GetSbpSignatures`). It builds exactly one signature,
  and that signature assigns `Split(0)` to every output slot.

Modules, one per file:

- `results.dfy` (`Results`): `Option` and `Result`. These stand in for `Maybe<void>` and
  `CHECK_EQ_OR_RETURN`.
- `cpp_int.dfy` (`CppInt`): the types `int32_t` and `int64_t`. It also holds C++'s truncating
  `/` and `%` (`Quot`, `Rem`) and the conversion to `int32_t` (`WrapInt32`). Lemmas show that the
  C++ operators agree with Dafny's Euclidean ones for exact division.
- `attrs.dfy` (`Attrs`): attribute kinds, values, declarations and resolution.
- `sbp.dfy` (`Sbp`): `Split(axis) | Broadcast | PartialSum`, argument slots, signatures, and the
  builder's `NewBuilder` / `Split` / `Build` steps.
- `mini_reader.dfy` (`MiniReader`): the operator itself. It holds the attribute table, inference,
  the SBP function, resolution followed by inference (`InferNode`), and the properties about them.

The inference body follows the C++ code step by step. It uses the truncating `%`, the
truncating `/=` and the store back into an `int32_t`. Its contract is stated with exact
arithmetic: `local * parallel_num == batch_size`.

Three edge cases of inference, as the code behaves:

- Any split triggers the divisibility rule, whatever its axis, because `has_split_parallel`
  does not look at the axis.
- Every `parallel_num <= 1` leaves the batch unchanged.
- Negative and zero batch sizes are accepted, because the code does not check them.

Attribute resolution is done by the framework, which is not part of this model. Its error order
is fixed here as follows:

- Unknown names are reported first, all of them together.
- Then the declarations are checked in declaration order, and the first one that has a wrongly
  typed value or is a missing required attribute is reported.

## Model

| member | source | states |
|---|---|---|
| MiniReader.AttrTableDistinct | en/code/extended_topics/data_loader/mini_reader_op.cpp:22-30 | no two of the nine declared attribute names coincide |
| MiniReader.AttrTableDefaultsTyped | en/code/extended_topics/data_loader/mini_reader_op.cpp:24-30 | every declared default has the kind its `UserOpAttrType` names |
| MiniReader.AttrTableRequired | en/code/extended_topics/data_loader/mini_reader_op.cpp:22-30 | a declaration has no default exactly when its name is `data_dir`, `data_part_num` or `batch_size` |
| MiniReader.AttrTableNames | en/code/extended_topics/data_loader/mini_reader_op.cpp:22-30 | the declared names are exactly the three required ones and the six optional ones |
| Attrs.Resolve | en/code/extended_topics/data_loader/mini_reader_op.cpp:22-30 | resolution succeeds iff every supplied name is declared and every declaration gets a value of its type, supplied or by default; it then binds exactly the declared names, each to the supplied value or else the default, and each value has its declared type; an unknown-name failure lists exactly the undeclared names; any other failure reports the first unsatisfied declaration |
| Attrs.FillInSucceeds | en/code/extended_topics/data_loader/mini_reader_op.cpp:22-30 | the in-order fill succeeds iff every declaration is satisfied, and it then binds exactly the declared names |
| Attrs.FillInValues | en/code/extended_topics/data_loader/mini_reader_op.cpp:22-30 | with distinct names, each declared name is bound to its supplied value, or to its default when omitted |
| Attrs.FillInReportsFirst | en/code/extended_topics/data_loader/mini_reader_op.cpp:22-30 | a failing fill reports the first declaration, in declaration order, that the supplied values do not satisfy |
| MiniReader.DefaultsWhenOmitted | en/code/extended_topics/data_loader/mini_reader_op.cpp:24-30 | an omitted optional attribute resolves to its default: `"part-"`, `-1`, `false`, `false`, `-1`, `1024` |
| MiniReader.MissingRequiredFails | en/code/extended_topics/data_loader/mini_reader_op.cpp:22-26 | resolution can succeed only when `data_dir`, `data_part_num` and `batch_size` are all supplied |
| MiniReader.FirstMissingReported | en/code/extended_topics/data_loader/mini_reader_op.cpp:22 | with only known, well-typed names supplied and no `data_dir`, the error is exactly "missing required `data_dir`" |
| MiniReader.ResolvedBatchSize | en/code/extended_topics/data_loader/mini_reader_op.cpp:26-33 | after resolution the `batch_size` that inference reads is the `int32_t` the node was given |
| MiniReader.BatchSize | en/code/extended_topics/data_loader/mini_reader_op.cpp:33 | the `int32_t` read for `batch_size` is exactly the value the resolved attributes bind to that name |
| Sbp.HasSplit | en/code/extended_topics/data_loader/mini_reader_op.cpp:36 | `has_split_parallel()` holds exactly for SBPs that are neither a broadcast nor a partial sum, whatever the split axis |
| CppInt.Rem | en/code/extended_topics/data_loader/mini_reader_op.cpp:37 | C++ `%`: the remainder differs from the dividend by a multiple of the divisor, is smaller than the divisor in magnitude and, when non-zero, has the sign of the dividend |
| CppInt.Quot | en/code/extended_topics/data_loader/mini_reader_op.cpp:38 | C++ `/=`: the quotient truncates toward zero, so its magnitude times the divisor's lies within one divisor below the dividend's magnitude, and a non-zero quotient is negative exactly when the operands' signs differ |
| MiniReader.InferTensorDesc | en/code/extended_topics/data_loader/mini_reader_op.cpp:31-43 | inference fails iff `out` is split, `parallel_num > 1` and `batch_size` is not a multiple of it, and the failure carries both numbers; on success the shape is `[local, 2]` of `kDouble` with `local` in `int32_t` range; under a split with `parallel_num > 1`, `local * parallel_num == batch_size`; otherwise `local == batch_size` |
| MiniReader.SplitAxisIgnored | en/code/extended_topics/data_loader/mini_reader_op.cpp:36 | a split on one axis gives the same inference result as a split on any other axis |
| MiniReader.BatchOfHundred | en/code/extended_topics/data_loader/mini_reader_op.cpp:36-41 | batch 100 split over 4 workers gives `[25, 2]`; over 3 workers it fails with `(100, 3)`; with 1 worker it gives `[100, 2]` under any SBP |
| MiniReader.InferNode | en/code/extended_topics/data_loader/mini_reader_op.cpp:20-43 | a node infers iff its attributes resolve and the supplied batch divides whenever `out` is split over several workers; a failure reports either the resolution error or the uneven split of the supplied batch |
| MiniReader.GetSbpSignatures | en/code/extended_topics/data_loader/mini_reader_op.cpp:44-47 | exactly one signature is built; it covers exactly the output slots, and every slot is `Split(0)` |
| Sbp.NewBuilder | en/code/extended_topics/data_loader/mini_reader_op.cpp:45 | `ctx->NewBuilder()` starts from a signature that assigns no slot |
| Sbp.SplitSlots | en/code/extended_topics/data_loader/mini_reader_op.cpp:45 | the builder's `Split(slots, axis)` assigns `Split(axis)` to every listed slot, adds only those slots, and keeps every other slot's assignment |
| Sbp.Build | en/code/extended_topics/data_loader/mini_reader_op.cpp:45 | `Build()` adds one signature after those already declared and keeps the earlier ones |
| MiniReader.SignatureDrivesInference | en/code/extended_topics/data_loader/mini_reader_op.cpp:34-46 | under the one built signature, inference for `out` succeeds iff `parallel_num <= 1` or the batch divides; each worker's share times `parallel_num` is the batch |
| CppInt.ExactDivisionAgrees | en/code/extended_topics/data_loader/mini_reader_op.cpp:37-38 | the C++ remainder is zero iff the Euclidean one is, and then the truncated quotient is the exact quotient |
| CppInt.QuotShrinks | en/code/extended_topics/data_loader/mini_reader_op.cpp:38 | dividing by `parallel_num > 1` never grows the magnitude, so `local_batch_size /= parallel_num` stays within `int32_t` |
| CppInt.WrapInt32 | en/code/extended_topics/data_loader/mini_reader_op.cpp:38 | storing into an `int32_t` keeps the value modulo 2^32, and leaves a value already in range unchanged |

## Left out

- Static registration: `REGISTER_CPU_ONLY_USER_OP` and the process-wide operator registry are
  left out. Their duplicate-name behaviour lives in `oneflow/core/framework/framework.h`, which is
  not part of this model.
- CPU-only placement is left out. It is a scheduling concern, and this file gives it no behaviour.
- The builder's handling of a duplicate attribute declaration is left out, because that
  framework code is not part of this model. The declared table is instead proved to have distinct
  names and well-typed defaults.
- The meaning of `data_dir`, `data_part_num`, the part-name attributes, the shuffle attributes
  and `seed` is left out. The reading and shuffling kernel is not in the file, so these are
  opaque values.
- `InferContext` / `SbpContext` accessors are left out. They become plain parameters: the
  resolved attributes, the SBP of `out` and `parallel_num`.
- An SBP whose kind is unset is left out. Every SBP here is a split, a broadcast or a partial
  sum.
- `kDouble` is only a type tag. There is no floating-point arithmetic in the operator.
- Attribute kinds other than string, `int32_t`, `int64_t` and bool are left out. The operator
  declares no others.
- Attrs.Resolve: it states the bound values only for a table with distinct names, and their
  types only for a well-formed table. The MiniReader table is proved to be both.
