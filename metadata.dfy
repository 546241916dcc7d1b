/** The table of required metadata entries and the validator that raises on
    the first entry a metadata record does not satisfy (Metadata.py). */
module Metadata {
  import opened Wrappers
  import opened PyStr
  import opened PyValue

  /** One row of the table: the key, a human-readable comment, the declared
      dtype name and, optionally, the tuple of allowed values. */
  datatype RequiredEntry = RequiredEntry(key: string, comment: string, dtype: string, allowedValues: Option<seq<string>>)

  const DefaultRequiredMetadata: seq<RequiredEntry> := [
    RequiredEntry("NOTES", "human readable description", "str", None),
    RequiredEntry("RUNTYPE", "data category", "str",
                  Some(["test", "background", "Am-241", "Co-60", "Ba-133",
                        "Ar-27", "Xe-127", "radioxenon", "other"])),
    RequiredEntry("BIAS", "bias voltage", "float", None),
    RequiredEntry("TEMP", "temperature in K", "float", None),
    RequiredEntry("SYSTEM", "DAQ host", "str", None),
    RequiredEntry("DEVICE", "CCD serial", "str", None)
  ]

  /** Why validation stopped. The first two are the ValueErrors the validator
      raises itself; the third is the KeyError that `metadata[key]` raises
      when only the upper-case spelling of the key is present. */
  datatype Failure =
    | MissingKey(key: string)
    | NotAllowed(key: string, value: Value, allowed: seq<string>)
    | KeyError(key: string)

  /** The text of a ValueError raised by the validator. */
  function Message(f: Failure): string
    requires !f.KeyError?
  {
    match f
    case MissingKey(key) => "Missing required key " + key
    case NotAllowed(key, value, allowed) =>
      key + ": Value '" + Str(value) + "' not in '" + TupleStr(allowed) + "'"
  }

  /** The check one table entry makes: `None` when the record satisfies it. */
  function EntryFailure(metadata: MetaDict, e: RequiredEntry): Option<Failure>
  {
    if e.key !in metadata && Upper(e.key) !in metadata then Some(MissingKey(e.key))
    else if e.key !in metadata then Some(KeyError(e.key))
    else if e.allowedValues.Some? && !InStrings(metadata[e.key], e.allowedValues.value) then
      Some(NotAllowed(e.key, metadata[e.key], e.allowedValues.value))
    else None
  }

  /** `validate_metadata(metadata, required)`: `Ok(true)`, or the exception
      raised for the first entry, in table order, that fails. It never gives
      `Ok(false)`. */
  function ValidateMetadata(metadata: MetaDict, required: seq<RequiredEntry> := DefaultRequiredMetadata): (r: Result<bool, Failure>)
    ensures r.Ok? ==> r.value
    ensures r.Err? <==> exists k :: 0 <= k < |required| && EntryFailure(metadata, required[k]).Some?
  {
    if required == [] then Ok(true)
    else
      var f := EntryFailure(metadata, required[0]);
      if f.Some? then
        Err(f.value)
      else
        var rest := ValidateMetadata(metadata, required[1..]);
        assert forall k :: 1 <= k < |required| ==> required[k] == required[1..][k - 1];
        rest
  }

  /** Validation fails with exactly the failure of the first failing entry. */
  lemma {:induction false} ValidateFirstFailure(metadata: MetaDict, required: seq<RequiredEntry>, k: nat)
    requires k < |required| && EntryFailure(metadata, required[k]).Some?
    requires forall j :: 0 <= j < k ==> EntryFailure(metadata, required[j]).None?
    ensures ValidateMetadata(metadata, required) == Err(EntryFailure(metadata, required[k]).value)
  {
    if k > 0 {
      ValidateFirstFailure(metadata, required[1..], k - 1);
    }
  }

  /** A key absent in both its spelling and its upper-case spelling raises
      "Missing required key K" unless an earlier entry already failed. */
  lemma MissingKeyRaises(metadata: MetaDict, required: seq<RequiredEntry>, k: nat)
    requires k < |required|
    requires required[k].key !in metadata && Upper(required[k].key) !in metadata
    requires forall j :: 0 <= j < k ==> EntryFailure(metadata, required[j]).None?
    ensures ValidateMetadata(metadata, required) == Err(MissingKey(required[k].key))
    ensures Message(MissingKey(required[k].key)) == "Missing required key " + required[k].key
  {
    ValidateFirstFailure(metadata, required, k);
  }

  /** A value outside the allowed tuple raises unless an earlier entry failed. */
  lemma NotAllowedRaises(metadata: MetaDict, required: seq<RequiredEntry>, k: nat)
    requires k < |required| && required[k].key in metadata
    requires required[k].allowedValues.Some?
    requires !InStrings(metadata[required[k].key], required[k].allowedValues.value)
    requires forall j :: 0 <= j < k ==> EntryFailure(metadata, required[j]).None?
    ensures ValidateMetadata(metadata, required).Err?
    ensures ValidateMetadata(metadata, required).error.NotAllowed?
  {
    ValidateFirstFailure(metadata, required, k);
  }

  /** The validator looks at no key other than the table's keys and their
      upper-case spellings: two records that agree there give the same
      outcome. */
  lemma {:induction false} ValidateOnlyReadsTableKeys(m1: MetaDict, m2: MetaDict, required: seq<RequiredEntry>)
    requires forall e :: e in required ==>
      (e.key in m1 <==> e.key in m2) && (Upper(e.key) in m1 <==> Upper(e.key) in m2) &&
      (e.key in m1 ==> m1[e.key] == m2[e.key])
    ensures ValidateMetadata(m1, required) == ValidateMetadata(m2, required)
  {
    if required != [] {
      assert EntryFailure(m1, required[0]) == EntryFailure(m2, required[0]);
      ValidateOnlyReadsTableKeys(m1, m2, required[1..]);
    }
  }

  /** A failure is always the failure of some table entry. */
  lemma {:induction false} ValidateFailureIsEntryFailure(metadata: MetaDict, required: seq<RequiredEntry>)
    requires ValidateMetadata(metadata, required).Err?
    ensures exists e :: e in required && EntryFailure(metadata, e) == Some(ValidateMetadata(metadata, required).error)
  {
    if EntryFailure(metadata, required[0]).None? {
      ValidateFailureIsEntryFailure(metadata, required[1..]);
      var e :| e in required[1..] && EntryFailure(metadata, e) == Some(ValidateMetadata(metadata, required[1..]).error);
      assert e in required;
    }
  }

  lemma UpperOfUpperCase(s: string)
    requires forall i :: 0 <= i < |s| ==> !('a' <= s[i] <= 'z')
    ensures Upper(s) == s
  {
  }

  /** With a table whose keys are all upper case the KeyError path cannot be
      reached: a key present in its upper-case spelling is present. */
  lemma {:induction false} UpperCaseTableNeverKeyError(metadata: MetaDict, required: seq<RequiredEntry>)
    requires forall e :: e in required ==> Upper(e.key) == e.key
    ensures ValidateMetadata(metadata, required).Err? ==> !ValidateMetadata(metadata, required).error.KeyError?
  {
    if required != [] {
      assert required[0] in required;
      UpperCaseTableNeverKeyError(metadata, required[1..]);
    }
  }

  /** Every key of the default table is already upper case, so the KeyError
      path cannot be reached with it. */
  lemma DefaultTableNeverKeyError(metadata: MetaDict)
    ensures ValidateMetadata(metadata).Err? ==> !ValidateMetadata(metadata).error.KeyError?
  {
    var keys := ["NOTES", "RUNTYPE", "BIAS", "TEMP", "SYSTEM", "DEVICE"];
    forall k | 0 <= k < |keys|
      ensures Upper(keys[k]) == keys[k]
    {
      UpperOfUpperCase(keys[k]);
    }
    assert forall e :: e in DefaultRequiredMetadata ==> e.key in keys;
    UpperCaseTableNeverKeyError(metadata, DefaultRequiredMetadata);
  }
}
