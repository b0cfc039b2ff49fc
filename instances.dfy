/** The Banquet parameter sets of banquet_instances.cpp: a constant table indexed
    by parameter-set number, entry 0 reserved as invalid, and a bounds-checked
    lookup. */
module Instances {
  import opened Errors
  import GF2E

  /** banquet_aes_t: key size, block size, number of blocks, number of S-boxes. */
  datatype AesParams = AesParams(keySize: nat, blockSize: nat, numBlocks: nat, numSboxes: nat)

  /** banquet_instance_t. `numRounds` is T (the number of repetitions), `numParties`
      is N, and `lambda` is the byte size of the extension field. */
  datatype Instance = Instance(
    aes: AesParams,
    digestSize: nat,
    seedSize: nat,
    numRounds: nat,
    numParties: nat,
    m1: nat,
    m2: nat,
    lambda: nat,
    params: nat)

  /** PARAMETER_SET_INVALID */
  const ParameterSetInvalid: nat := 0
  /** PARAMETER_SET_MAX_INDEX: the invalid entry and twelve parameter sets. */
  const ParameterSetMaxIndex: nat := 13

  const Aes128: AesParams := AesParams(16, 16, 1, 200)
  const Aes192: AesParams := AesParams(24, 16, 2, 416)
  const Aes256: AesParams := AesParams(32, 16, 2, 500)

  /** The `instances` table; entry i carries parameter-set number i. */
  const Table: seq<Instance> := [
    Instance(AesParams(0, 0, 0, 0), 0, 0, 0, 0, 0, 0, 0, ParameterSetInvalid),
    Instance(Aes128, 32, 16, 31, 64, 10, 20, 4, 1),   // Banquet_L1_Param1
    Instance(Aes128, 32, 16, 31, 64, 20, 10, 4, 2),   // Banquet_L1_Param2
    Instance(Aes128, 32, 16, 29, 64, 10, 20, 5, 3),   // Banquet_L1_Param3
    Instance(Aes128, 32, 16, 27, 64, 10, 20, 6, 4),   // Banquet_L1_Param4
    Instance(Aes128, 32, 16, 28, 128, 10, 20, 4, 5),  // Banquet_L1_Param5
    Instance(Aes128, 32, 16, 26, 128, 10, 20, 5, 6),  // Banquet_L1_Param6
    Instance(Aes128, 32, 16, 24, 128, 10, 20, 6, 7),  // Banquet_L1_Param7
    Instance(Aes128, 32, 16, 25, 256, 10, 20, 4, 8),  // Banquet_L1_Param8
    Instance(Aes128, 32, 16, 23, 256, 10, 20, 5, 9),  // Banquet_L1_Param9
    Instance(Aes128, 32, 16, 21, 256, 10, 20, 6, 10), // Banquet_L1_Param10
    Instance(Aes192, 48, 24, 38, 64, 16, 26, 4, 11),  // Banquet_L3_Param1
    Instance(Aes256, 64, 32, 50, 64, 20, 25, 4, 12)   // Banquet_L5_Param1
  ]

  /** The properties every real parameter set has. */
  predicate WellFormed(inst: Instance) {
    && inst.lambda in {4, 5, 6}
    && inst.digestSize == 2 * inst.aes.keySize
    && inst.seedSize == inst.aes.keySize
    && inst.aes.blockSize == 16
  }

  /** The reserved entry 0 is all zero, with lambda 0 and the invalid number. */
  lemma InvalidEntry()
    ensures |Table| == ParameterSetMaxIndex
    ensures Table[ParameterSetInvalid] == Instance(AesParams(0, 0, 0, 0), 0, 0, 0, 0, 0, 0, 0, 0)
    ensures Table[ParameterSetInvalid].lambda == 0
    ensures Table[ParameterSetInvalid].params == ParameterSetInvalid
    ensures !WellFormed(Table[ParameterSetInvalid])
  {
  }

  /** banquet_instance_get: fails exactly outside the valid range, and otherwise
      returns the entry for `param`, which is a well-formed parameter set. */
  function InstanceGet(param: int): (r: Result<Instance>)
    ensures r.Err? <==> param <= ParameterSetInvalid || param >= ParameterSetMaxIndex
    ensures r.Err? ==> r.error == InvalidParameterSet
    ensures r.Ok? ==> r.value == Table[param] && r.value.params == param
    ensures r.Ok? ==> WellFormed(r.value)
  {
    if param <= ParameterSetInvalid || param >= ParameterSetMaxIndex then Err(InvalidParameterSet)
    else Ok(Table[param])
  }

  /** Every instance the lookup returns selects one of the three field widths. */
  lemma LookupAcceptedByField(param: int)
    requires InstanceGet(param).Ok?
    ensures GF2E.WidthForLambda(InstanceGet(param).value.lambda).Ok?
  {
  }
}
