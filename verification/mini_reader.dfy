/**
 The `MiniReader` user operator: a data-reading node with no tensor inputs and
 one output `out`, whose per-worker output shape is `[local_batch, 2]` of
 doubles and whose only SBP signature splits every output on axis 0.
 */
module MiniReader {
  import opened Results
  import opened CppInt
  import opened Attrs
  import opened Sbp

  /** `.Output("out")`: a single output argument holding one tensor. */
  const Out: Slot := Slot("out", 0)
  const Outputs: seq<Slot> := [Out]

  /** The nine attribute declarations, in declaration order. */
  const AttrTable: seq<AttrDecl> := [
    AttrDecl("data_dir", AtString, None),
    AttrDecl("data_part_num", AtInt32, None),
    AttrDecl("part_name_prefix", AtString, Some(StringValue("part-"))),
    AttrDecl("part_name_suffix_length", AtInt32, Some(Int32Value(-1))),
    AttrDecl("batch_size", AtInt32, None),
    AttrDecl("random_shuffle", AtBool, Some(BoolValue(false))),
    AttrDecl("shuffle_after_epoch", AtBool, Some(BoolValue(false))),
    AttrDecl("seed", AtInt64, Some(Int64Value(-1))),
    AttrDecl("shuffle_buffer_size", AtInt32, Some(Int32Value(1024)))
  ]

  const RequiredNames: set<string> := {"data_dir", "data_part_num", "batch_size"}

  /** Element types; the operator only ever produces `kDouble`. */
  datatype DataType = Double

  /** Shape and element type of a tensor, without its data. */
  datatype TensorDesc = TensorDesc(shape: seq<int>, dataType: DataType)

  /**
   `CHECK_EQ_OR_RETURN(local_batch_size % parallel_num, 0)` failing. The C++
   check compares the remainder with zero; carrying the batch size and the
   worker count as the error's payload is this model's choice.
   */
  datatype InferError = UnevenSplit(dividend: int, divisor: int)

  /**
   The tensor-descriptor inference function. When `out` is split (on any
   axis) over more than one worker, the batch must divide evenly and each
   worker gets its share; otherwise each worker sees the whole batch.
   The body follows the C++ operators (`%`, `/=` into an `int32_t`); the
   contract is stated with exact arithmetic.
   */
  function InferTensorDesc(batchSize: Int32, outSbp: SbpParallel, parallelNum: Int64): (r: Result<TensorDesc, InferError>)
    ensures r.Ok? <==> !(HasSplit(outSbp) && parallelNum > 1) || batchSize % parallelNum == 0
    ensures r.Err? ==> r.error == UnevenSplit(batchSize, parallelNum)
    ensures r.Ok? ==> |r.value.shape| == 2 && r.value.shape[1] == 2 && r.value.dataType == Double
    ensures r.Ok? ==> MinInt32 <= r.value.shape[0] <= MaxInt32
    ensures r.Ok? && HasSplit(outSbp) && parallelNum > 1 ==>
              r.value.shape[0] * parallelNum == batchSize && r.value.shape[0] == batchSize / parallelNum
    ensures r.Ok? && !(HasSplit(outSbp) && parallelNum > 1) ==> r.value.shape[0] == batchSize
  {
    if HasSplit(outSbp) && parallelNum > 1 then
      ExactDivisionAgrees(batchSize, parallelNum);
      if Rem(batchSize, parallelNum) != 0 then
        Err(UnevenSplit(batchSize, parallelNum))
      else
        QuotShrinks(batchSize, parallelNum);
        var localBatch := WrapInt32(Quot(batchSize, parallelNum));
        Ok(TensorDesc([localBatch, 2], Double))
    else
      Ok(TensorDesc([batchSize, 2], Double))
  }

  /**
   The SBP function: one builder, `Split(outputs, 0)`, built once.
   */
  function GetSbpSignatures(outputs: seq<Slot>): (sigs: seq<Signature>)
    ensures |sigs| == 1
    ensures sigs[0].Keys == SlotSet(outputs)
    ensures forall s :: s in sigs[0] ==> sigs[0][s] == Split(0)
  {
    Build([], SplitSlots(NewBuilder(), outputs, 0))
  }

  /** `ctx->Attr<int32_t>("batch_size")` on resolved attributes. */
  function BatchSize(attrs: map<string, AttrValue>): (b: Int32)
    requires "batch_size" in attrs && attrs["batch_size"].Int32Value?
    ensures attrs["batch_size"] == Int32Value(b)
  {
    attrs["batch_size"].i
  }

  /** Failure of a whole node: its attributes, or its inference. */
  datatype NodeError = AttrFailure(attrError: AttrError) | InferFailure(inferError: InferError)

  /** No two declared attribute names coincide. */
  lemma AttrTableDistinct()
    ensures DistinctNames(AttrTable)
  {
  }

  /** Every default has the declared type: `"part-"` a string, `-1` an `int32_t`, ... */
  lemma AttrTableDefaultsTyped()
    ensures DefaultsTyped(AttrTable)
  {
  }

  /** Exactly `data_dir`, `data_part_num` and `batch_size` have no default. */
  lemma AttrTableRequired()
    ensures forall i :: 0 <= i < |AttrTable| ==> (Required(AttrTable[i]) <==> AttrTable[i].name in RequiredNames)
  {
  }

  /** The declared names are the three required ones and six optional ones. */
  lemma AttrTableNames()
    ensures Names(AttrTable) == RequiredNames + {"part_name_prefix", "part_name_suffix_length",
      "random_shuffle", "shuffle_after_epoch", "seed", "shuffle_buffer_size"}
  {
    assert AttrTable[0].name in Names(AttrTable);
    assert AttrTable[1].name in Names(AttrTable);
    assert AttrTable[2].name in Names(AttrTable);
    assert AttrTable[3].name in Names(AttrTable);
    assert AttrTable[4].name in Names(AttrTable);
    assert AttrTable[5].name in Names(AttrTable);
    assert AttrTable[6].name in Names(AttrTable);
    assert AttrTable[7].name in Names(AttrTable);
    assert AttrTable[8].name in Names(AttrTable);
  }

  /** The `batch_size` value a node was given, if it is an `int32_t`. */
  function SuppliedBatch(supplied: Supplied): Option<Int32> {
    if "batch_size" in supplied && supplied["batch_size"].Int32Value? then Some(supplied["batch_size"].i)
    else None
  }

  /** After a successful resolution `batch_size` is bound to the `int32_t` the node was given. */
  lemma ResolvedBatchSize(supplied: Supplied)
    ensures Resolve(AttrTable, supplied).Ok? ==>
              && SuppliedBatch(supplied).Some?
              && var attrs := Resolve(AttrTable, supplied).value;
                 "batch_size" in attrs && attrs["batch_size"] == Int32Value(SuppliedBatch(supplied).value)
  {
    if Resolve(AttrTable, supplied).Ok? {
      AttrTableDistinct();
      BatchSizeDecl(AttrTable, supplied, 4);
    }
  }

  /** A resolution against any table whose entry `k` declares a required `int32_t` `batch_size`. */
  lemma BatchSizeDecl(decls: seq<AttrDecl>, supplied: Supplied, k: int)
    requires DistinctNames(decls) && 0 <= k < |decls| && decls[k] == AttrDecl("batch_size", AtInt32, None)
    requires Resolve(decls, supplied).Ok?
    ensures SuppliedBatch(supplied).Some?
    ensures var attrs := Resolve(decls, supplied).value;
            "batch_size" in attrs && attrs["batch_size"] == Int32Value(SuppliedBatch(supplied).value)
  {
    ResolvedDecl(decls, supplied, k);
  }

  /**
   Resolving a node's attributes, then inferring its output descriptor for
   the SBP chosen for `out` and the worker count.
   */
  function InferNode(supplied: Supplied, outSbp: SbpParallel, parallelNum: Int64): (r: Result<TensorDesc, NodeError>)
    ensures r.Ok? <==>
              && Resolve(AttrTable, supplied).Ok?
              && SuppliedBatch(supplied).Some?
              && (!(HasSplit(outSbp) && parallelNum > 1) || SuppliedBatch(supplied).value % parallelNum == 0)
    ensures r.Err? && r.error.AttrFailure? ==> Resolve(AttrTable, supplied) == Err(r.error.attrError)
    ensures r.Err? && r.error.InferFailure? ==>
              && Resolve(AttrTable, supplied).Ok?
              && SuppliedBatch(supplied).Some?
              && r.error.inferError == UnevenSplit(SuppliedBatch(supplied).value, parallelNum)
    ensures r.Ok? ==> |r.value.shape| == 2 && r.value.shape[1] == 2 && r.value.dataType == Double
    ensures r.Ok? && HasSplit(outSbp) && parallelNum > 1 ==>
              r.value.shape[0] * parallelNum == SuppliedBatch(supplied).value
    ensures r.Ok? && !(HasSplit(outSbp) && parallelNum > 1) ==> r.value.shape[0] == SuppliedBatch(supplied).value
  {
    match Resolve(AttrTable, supplied)
    case Err(e) => Err(AttrFailure(e))
    case Ok(attrs) =>
      ResolvedBatchSize(supplied);
      match InferTensorDesc(BatchSize(attrs), outSbp, parallelNum)
      case Err(e) => Err(InferFailure(e))
      case Ok(desc) => Ok(desc)
  }

  /**
   Omitting an optional attribute leaves it bound to its declared default:
   `part_name_prefix = "part-"`, `part_name_suffix_length = -1`,
   `random_shuffle = false`, `shuffle_after_epoch = false`, `seed = -1`,
   `shuffle_buffer_size = 1024`.
   */
  lemma DefaultsWhenOmitted(supplied: Supplied)
    ensures Resolve(AttrTable, supplied).Ok? ==>
      var attrs := Resolve(AttrTable, supplied).value;
      && ("part_name_prefix" !in supplied ==> "part_name_prefix" in attrs && attrs["part_name_prefix"] == StringValue("part-"))
      && ("part_name_suffix_length" !in supplied ==> "part_name_suffix_length" in attrs && attrs["part_name_suffix_length"] == Int32Value(-1))
      && ("random_shuffle" !in supplied ==> "random_shuffle" in attrs && attrs["random_shuffle"] == BoolValue(false))
      && ("shuffle_after_epoch" !in supplied ==> "shuffle_after_epoch" in attrs && attrs["shuffle_after_epoch"] == BoolValue(false))
      && ("seed" !in supplied ==> "seed" in attrs && attrs["seed"] == Int64Value(-1))
      && ("shuffle_buffer_size" !in supplied ==> "shuffle_buffer_size" in attrs && attrs["shuffle_buffer_size"] == Int32Value(1024))
  {
    if Resolve(AttrTable, supplied).Ok? {
      AttrTableDistinct();
      ResolvedDecl(AttrTable, supplied, 2);
      ResolvedDecl(AttrTable, supplied, 3);
      ResolvedDecl(AttrTable, supplied, 5);
      ResolvedDecl(AttrTable, supplied, 6);
      ResolvedDecl(AttrTable, supplied, 7);
      ResolvedDecl(AttrTable, supplied, 8);
    }
  }

  /** Resolution succeeds only if `data_dir`, `data_part_num` and `batch_size` were all supplied. */
  lemma MissingRequiredFails(supplied: Supplied)
    ensures Resolve(AttrTable, supplied).Ok? ==>
              "data_dir" in supplied && "data_part_num" in supplied && "batch_size" in supplied
  {
    if Resolve(AttrTable, supplied).Ok? {
      AttrTableDistinct();
      ResolvedDecl(AttrTable, supplied, 0);
      ResolvedDecl(AttrTable, supplied, 1);
      ResolvedDecl(AttrTable, supplied, 4);
    }
  }

  /**
   When only known, correctly typed names are supplied, the first required
   attribute missing in declaration order is the one reported.
   */
  lemma FirstMissingReported(supplied: Supplied)
    requires supplied.Keys <= Names(AttrTable)
    requires forall i :: 0 <= i < |AttrTable| && AttrTable[i].name in supplied ==>
               TypeOf(supplied[AttrTable[i].name]) == AttrTable[i].ty
    requires "data_dir" !in supplied
    ensures Resolve(AttrTable, supplied) == Err(MissingRequired("data_dir"))
  {
    var r := Resolve(AttrTable, supplied);
    assert !Acceptable(AttrTable[0], supplied);
    assert !r.error.UnknownAttributes?;
    var i :| FirstRejected(AttrTable, supplied, i) && r.error == RejectionOf(AttrTable[i], supplied);
    assert i == 0;
  }

  /** `has_split_parallel` does not look at the axis: a split on any axis is treated alike. */
  lemma SplitAxisIgnored(batchSize: Int32, axis1: int, axis2: int, parallelNum: Int64)
    ensures InferTensorDesc(batchSize, Split(axis1), parallelNum) == InferTensorDesc(batchSize, Split(axis2), parallelNum)
  {
  }

  /** A batch of 100 over 4 split workers gives `[25, 2]`; over 3 it fails; with one worker it stays `[100, 2]`. */
  lemma BatchOfHundred(sbp: SbpParallel)
    ensures InferTensorDesc(100, Split(0), 4) == Ok(TensorDesc([25, 2], Double))
    ensures InferTensorDesc(100, Split(0), 3) == Err(UnevenSplit(100, 3))
    ensures InferTensorDesc(100, sbp, 1) == Ok(TensorDesc([100, 2], Double))
  {
    assert Rem(100, 4) == 0 && Quot(100, 4) == 25;
    assert Rem(100, 3) == 1;
  }

  /**
   The signature the SBP function builds assigns `out` a split, so inference
   under it succeeds exactly when the batch divides over the workers, and
   then each worker holds an equal share of the batch.
   */
  lemma SignatureDrivesInference(batchSize: Int32, parallelNum: Int64)
    ensures Out in GetSbpSignatures(Outputs)[0]
    ensures var r := InferTensorDesc(batchSize, GetSbpSignatures(Outputs)[0][Out], parallelNum);
      && (r.Ok? <==> parallelNum <= 1 || batchSize % parallelNum == 0)
      && (r.Ok? && parallelNum > 1 ==> r.value.shape[0] * parallelNum == batchSize)
      && (r.Ok? && parallelNum <= 1 ==> r.value.shape[0] == batchSize)
  {
    assert Outputs[0] == Out;
    assert Out in SlotSet(Outputs);
  }
}
