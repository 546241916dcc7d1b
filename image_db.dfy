/** The metadata rules the image catalogue applies before a FITS file is
    registered (ImageDB.py): required keys, restricted values, and the rule
    that source and gas-injection runs name their source. */
module ImageDB {
  import opened Wrappers
  import opened PyStr
  import opened PyValue

  /** `metadata_allowed_values()`, in its dictionary order. */
  const MetadataAllowedValues: seq<(string, seq<string>)> := [
    ("RUNTYPE", ["background", "source", "gasinjection", "test"]),
    ("SOURCE", ["Am-241", "Co-60", "Ba-133", "Ar-27", "Xe-127", "radioxenon"])
  ]

  /** `metadata_required_keys()`. */
  const MetadataRequiredKeys: seq<string> := ["MEMO", "BIAS", "RUNTYPE", "SYSTEM"]

  /** The run types that need a SOURCE entry. */
  const SourceRunTypes: seq<string> := ["source", "gasinjection"]

  /** Why `validate_metadata` returned False. */
  datatype Rejection = MissingKey(key: string) | NotAllowed(key: string) | SourceMissing

  /** What `validate_metadata` does: return True, return False (the printed
      reason is kept), or raise KeyError when only the lower-case `runtype`
      spelling is present and the source-rule reads `metadata['RUNTYPE']`. */
  datatype Verdict = Accepted | Rejected(reason: Rejection) | RaisesKeyError(key: string)

  predicate HasKey(metadata: MetaDict, key: string)
  {
    key in metadata || Lower(key) in metadata
  }

  /** The first required key absent in both spellings. */
  function FirstMissingKey(metadata: MetaDict, keys: seq<string>): (r: Option<string>)
    ensures r.None? <==> forall k :: k in keys ==> HasKey(metadata, k)
    ensures r.Some? ==> r.value in keys && !HasKey(metadata, r.value)
    ensures r.Some? ==> exists i :: 0 <= i < |keys| && keys[i] == r.value && forall j :: 0 <= j < i ==> HasKey(metadata, keys[j])
  {
    if keys == [] then None
    else if !HasKey(metadata, keys[0]) then Some(keys[0])
    else
      var rest := FirstMissingKey(metadata, keys[1..]);
      assert rest.Some? ==> exists i :: 0 <= i < |keys| && keys[i] == rest.value && forall j :: 0 <= j < i ==> HasKey(metadata, keys[j]) by {
        if rest.Some? {
          var i :| 0 <= i < |keys[1..]| && keys[1..][i] == rest.value && forall j :: 0 <= j < i ==> HasKey(metadata, keys[1..][j]);
          assert keys[i + 1] == rest.value;
          assert forall j :: 0 <= j < i + 1 ==> HasKey(metadata, keys[j]) by {
            forall j | 0 <= j < i + 1
              ensures HasKey(metadata, keys[j])
            {
              if j > 0 {
                assert keys[j] == keys[1..][j - 1];
              }
            }
          }
        }
      }
      rest
  }

  predicate ValueAllowed(metadata: MetaDict, rule: (string, seq<string>))
  {
    rule.0 in metadata ==> InStrings(metadata[rule.0], rule.1)
  }

  /** The first restricted key present with a value outside its tuple. */
  function FirstBadValue(metadata: MetaDict, rules: seq<(string, seq<string>)>): (r: Option<string>)
    ensures r.None? <==> forall rule :: rule in rules ==> ValueAllowed(metadata, rule)
    ensures r.Some? ==> exists rule :: rule in rules && rule.0 == r.value && !ValueAllowed(metadata, rule)
    ensures r.Some? ==> exists i :: 0 <= i < |rules| && rules[i].0 == r.value && !ValueAllowed(metadata, rules[i]) && forall j :: 0 <= j < i ==> ValueAllowed(metadata, rules[j])
  {
    if rules == [] then None
    else if !ValueAllowed(metadata, rules[0]) then Some(rules[0].0)
    else
      var rest := FirstBadValue(metadata, rules[1..]);
      assert rest.Some? ==> exists i :: 0 <= i < |rules| && rules[i].0 == rest.value && !ValueAllowed(metadata, rules[i]) && forall j :: 0 <= j < i ==> ValueAllowed(metadata, rules[j]) by {
        if rest.Some? {
          var i :| 0 <= i < |rules[1..]| && rules[1..][i].0 == rest.value && !ValueAllowed(metadata, rules[1..][i]) && forall j :: 0 <= j < i ==> ValueAllowed(metadata, rules[1..][j]);
          assert rules[i + 1] == rules[1..][i];
          assert forall j :: 0 <= j < i + 1 ==> ValueAllowed(metadata, rules[j]) by {
            forall j | 0 <= j < i + 1
              ensures ValueAllowed(metadata, rules[j])
            {
              if j > 0 {
                assert rules[j] == rules[1..][j - 1];
              }
            }
          }
        }
      }
      rest
  }

  /** `validate_metadata(metadata)`: the three checks in their order. */
  function ValidateMetadata(metadata: MetaDict): Verdict
  {
    var missing := FirstMissingKey(metadata, MetadataRequiredKeys);
    if missing.Some? then Rejected(MissingKey(missing.value))
    else
      var bad := FirstBadValue(metadata, MetadataAllowedValues);
      if bad.Some? then Rejected(NotAllowed(bad.value))
      else if "RUNTYPE" !in metadata then RaisesKeyError("RUNTYPE")
      else if InStrings(metadata["RUNTYPE"], SourceRunTypes) && "SOURCE" !in metadata then Rejected(SourceMissing)
      else Accepted
  }

  /** The metadata is accepted exactly when all three checks pass. */
  lemma ValidateAcceptsIff(metadata: MetaDict)
    ensures ValidateMetadata(metadata) == Accepted <==>
      && (forall k :: k in MetadataRequiredKeys ==> k in metadata || Lower(k) in metadata)
      && (forall rule :: rule in MetadataAllowedValues ==> rule.0 in metadata ==> InStrings(metadata[rule.0], rule.1))
      && "RUNTYPE" in metadata
      && !(InStrings(metadata["RUNTYPE"], SourceRunTypes) && "SOURCE" !in metadata)
  {
  }

  /** A required key absent in both spellings makes validation return False,
      reporting the first such key of the table. */
  lemma MissingKeyRejected(metadata: MetaDict, k: string)
    requires k in MetadataRequiredKeys && k !in metadata && Lower(k) !in metadata
    ensures ValidateMetadata(metadata).Rejected?
    ensures ValidateMetadata(metadata).reason.MissingKey?
    ensures ValidateMetadata(metadata).reason.key in MetadataRequiredKeys
    ensures !HasKey(metadata, ValidateMetadata(metadata).reason.key)
    ensures exists i ::
      && 0 <= i < |MetadataRequiredKeys| && MetadataRequiredKeys[i] == ValidateMetadata(metadata).reason.key
      && forall j :: 0 <= j < i ==> HasKey(metadata, MetadataRequiredKeys[j])
  {
    assert !HasKey(metadata, k);
  }

  /** RUNTYPE or SOURCE present with a value outside its tuple makes
      validation return False (and never raise). */
  lemma BadValueRejected(metadata: MetaDict, key: string)
    requires key == "RUNTYPE" || key == "SOURCE"
    requires key in metadata
    requires !InStrings(metadata[key], if key == "RUNTYPE" then MetadataAllowedValues[0].1 else MetadataAllowedValues[1].1)
    ensures ValidateMetadata(metadata).Rejected?
  {
    var rule := if key == "RUNTYPE" then MetadataAllowedValues[0] else MetadataAllowedValues[1];
    assert rule in MetadataAllowedValues && !ValueAllowed(metadata, rule);
  }

  /** A source or gas-injection run without SOURCE makes validation return
      False. */
  lemma SourceRunNeedsSource(metadata: MetaDict)
    requires "RUNTYPE" in metadata && InStrings(metadata["RUNTYPE"], SourceRunTypes)
    requires "SOURCE" !in metadata
    ensures ValidateMetadata(metadata).Rejected?
  {
    assert ValueAllowed(metadata, MetadataAllowedValues[0]);
  }

  /** A record that passes the first two checks with only the lower-case
      `runtype` spelling makes the third check raise KeyError. */
  lemma LowerCaseRunTypeRaises(metadata: MetaDict)
    requires "RUNTYPE" !in metadata && "runtype" in metadata
    requires forall k :: k in MetadataRequiredKeys ==> HasKey(metadata, k)
    requires FirstBadValue(metadata, MetadataAllowedValues).None?
    ensures ValidateMetadata(metadata) == RaisesKeyError("RUNTYPE")
  {
  }
}
