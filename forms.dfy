/** The web-form field that turns the indexed `<name>_key_<i>`,
    `<name>_value_<i>`, `<name>_dtype_<i>` and `<name>_comment_<i>` inputs of
    a submitted form into a metadata dictionary (forms.py, MetadataField). */
module Forms {
  import opened Wrappers
  import opened PyStr
  import opened PyValue
  import Metadata

  /** The strings the bool dtype reads as True and as False. */
  const TrueStrings: seq<string> := ["1", "T", "yes", "on", "true", "True"]
  const FalseStrings: seq<string> := ["0", "F", "no", "off", "false", "False"]

  /** A submitted form: input names to their (first) values. */
  type FormData = map<string, string>

  /** `getfieldname(basename, index)`: the field name, an underscore, the
      base name, an underscore and the decimal index. */
  function FieldName(name: string, basename: string, index: int): string
  {
    name + "_" + basename + "_" + IntToStr(index)
  }

  /** The input name is the prefix followed by the numeral, which `int()`
      reads back as the index. */
  lemma FieldNameSuffix(name: string, basename: string, index: int)
    ensures StartsWith(FieldName(name, basename, index), name + "_" + basename + "_")
    ensures ParseInt(FieldName(name, basename, index)[|name + "_" + basename + "_"|..]) == Some(index)
  {
    var prefix := name + "_" + basename + "_";
    assert FieldName(name, basename, index)[|prefix|..] == IntToStr(index);
    ParseIntOfIntToStr(index);
  }

  /** Different indices give different input names. */
  lemma FieldNameInjective(name: string, basename: string, i: int, j: int)
    requires FieldName(name, basename, i) == FieldName(name, basename, j)
    ensures i == j
  {
    var prefix := name + "_" + basename + "_";
    assert FieldName(name, basename, i)[|prefix|..] == IntToStr(i);
    assert FieldName(name, basename, j)[|prefix|..] == IntToStr(j);
    IntToStrInjective(i, j);
  }

  function Get(fd: FormData, field: string): Option<string>
  {
    if field in fd then Some(fd[field]) else None
  }

  /** The value stored when no conversion applies: the raw string, or None
      when the value input is missing. */
  function RawValue(val: Option<string>): Value
  {
    if val.Some? then VStr(val.value) else VNone
  }

  /** The result of converting one value: the converted value, a ValueError
      (its message and the raw value that is kept), or a TypeError, which
      `process` does not catch. */
  datatype Conversion = Converted(value: Value) | Unparsable(message: string, raw: Value) | TypeError

  /** The conversion by declared dtype. `floatStr` stands for Python's
      `float()`: `None` where it raises ValueError, otherwise `str()` of the
      float it returns. */
  function ConvertValue(val: Option<string>, dtype: string, floatStr: string -> Option<string>): (r: Conversion)
    ensures dtype == "bool" ==> (r.Converted? <==> val.Some? && (val.value in TrueStrings || val.value in FalseStrings))
    ensures dtype == "bool" && r.Converted? ==> r.value == VBool(val.value in TrueStrings)
    ensures dtype == "bool" && !r.Converted? ==> r == Unparsable("Can't parse " + Str(RawValue(val)) + " as type bool", RawValue(val))
    ensures dtype == "int" ==> (r.TypeError? <==> val.None?)
    ensures dtype == "int" && val.Some? ==> (r.Converted? <==> ParseInt(val.value).Some?)
    ensures dtype == "int" && r.Converted? ==> r.value == VInt(ParseInt(val.value).value)
    ensures dtype != "bool" && dtype != "int" && dtype != "float" ==> r == Converted(RawValue(val))
    ensures r.Unparsable? ==> r.raw == RawValue(val)
  {
    if dtype == "bool" then
      if val.Some? && val.value in TrueStrings then Converted(VBool(true))
      else if val.Some? && val.value in FalseStrings then Converted(VBool(false))
      else Unparsable("Can't parse " + Str(RawValue(val)) + " as type bool", RawValue(val))
    else if dtype == "int" then
      if val.None? then TypeError
      else
        var i := ParseInt(val.value);
        if i.Some? then Converted(VInt(i.value))
        else Unparsable("invalid literal for int() with base 10: " + Repr(val.value), VStr(val.value))
    else if dtype == "float" then
      if val.None? then TypeError
      else
        var f := floatStr(val.value);
        if f.Some? then Converted(VFloat(f.value))
        else Unparsable("could not convert string to float: " + Repr(val.value), VStr(val.value))
    else Converted(RawValue(val))
  }

  /** `str(True)` and `str(False)` are read back by the bool dtype. */
  lemma BoolRoundTrip(b: bool, floatStr: string -> Option<string>)
    ensures ConvertValue(Some(Str(VBool(b))), "bool", floatStr) == Converted(VBool(b))
  {
    if b {
      assert Str(VBool(b)) == TrueStrings[5];
    } else {
      assert Str(VBool(b)) == FalseStrings[5];
      assert forall k :: 0 <= k < |TrueStrings| ==> |TrueStrings[k]| < 5;
    }
  }

  /** `str(i)` is read back by the int dtype. */
  lemma IntRoundTrip(i: int, floatStr: string -> Option<string>)
    ensures ConvertValue(Some(Str(VInt(i))), "int", floatStr) == Converted(VInt(i))
  {
    assert Str(VInt(i)) == IntToStr(i);
    ParseIntOfIntToStr(i);
  }

  /** No string is both truthy and falsy. */
  lemma TruthyFalsyDisjoint(s: string)
    ensures !(s in TrueStrings && s in FalseStrings)
  {
  }

  /** Entry `i` exists: its key input is present and not empty. */
  predicate KeyPresent(fd: FormData, name: string, i: nat)
  {
    FieldName(name, "key", i) in fd && fd[FieldName(name, "key", i)] != ""
  }

  function KeyNames(name: string, n: nat): set<string>
  {
    set j | 0 <= j < n :: FieldName(name, "key", j)
  }

  lemma {:induction false} KeyNamesCard(name: string, n: nat)
    ensures |KeyNames(name, n)| == n
  {
    if n > 0 {
      KeyNamesCard(name, n - 1);
      var last := FieldName(name, "key", n - 1);
      assert KeyNames(name, n) == KeyNames(name, n - 1) + {last};
      if last in KeyNames(name, n - 1) {
        var j :| 0 <= j < n - 1 && FieldName(name, "key", j) == last;
        FieldNameInjective(name, "key", j, n - 1);
        assert false;
      }
    }
  }

  lemma SubsetCard<T>(a: set<T>, b: set<T>)
    requires a <= b
    ensures |a| <= |b|
  {
    assert b == a + (b - a);
  }

  /** A form with entries 0 .. n-1 has at least n inputs. */
  lemma EntriesBounded(fd: FormData, name: string, n: nat)
    requires forall j :: 0 <= j < n ==> KeyPresent(fd, name, j)
    ensures n <= |fd|
  {
    KeyNamesCard(name, n);
    forall k | k in KeyNames(name, n)
      ensures k in fd
    {
      var j :| 0 <= j < n && k == FieldName(name, "key", j);
      assert KeyPresent(fd, name, j);
    }
    SubsetCard(KeyNames(name, n), fd.Keys);
  }

  function CountFrom(fd: FormData, name: string, i: nat): (n: nat)
    requires forall j :: 0 <= j < i ==> KeyPresent(fd, name, j)
    ensures i <= n && !KeyPresent(fd, name, n)
    ensures forall j :: 0 <= j < n ==> KeyPresent(fd, name, j)
    decreases |fd| - i
  {
    if !KeyPresent(fd, name, i) then i
    else
      EntriesBounded(fd, name, i + 1);
      CountFrom(fd, name, i + 1)
  }

  /** The number of entries read: the first index whose key input is
      missing or empty. */
  function EntryCount(fd: FormData, name: string): (n: nat)
    ensures !KeyPresent(fd, name, n)
    ensures forall j :: 0 <= j < n ==> KeyPresent(fd, name, j)
  {
    CountFrom(fd, name, 0)
  }

  lemma EntryCountUnique(fd: FormData, name: string, n: nat)
    requires !KeyPresent(fd, name, n)
    requires forall j :: 0 <= j < n ==> KeyPresent(fd, name, j)
    ensures EntryCount(fd, name) == n
  {
  }

  /** The state `process` builds while it reads entries: the `result`
      dictionary, the `comments` dictionary, whether `result["comments"]` is
      still that dictionary (an entry whose key is `comments` replaces it),
      and the errors appended so far. */
  datatype Acc = Acc(result: MetaDict, comments: map<string, string>, aliased: bool, errors: seq<string>)

  const InitialAcc: Acc := Acc(map["comments" := VDict(map[])], map[], true, [])

  /** The inputs of entry `i`: its key, its value (missing or not), its
      declared dtype (`str` when the input is missing) and its comment. */
  datatype Entry = Entry(key: string, value: Option<string>, dtype: string, comment: Option<string>)

  function ReadEntry(fd: FormData, name: string, i: nat): (e: Entry)
    requires KeyPresent(fd, name, i)
    ensures e.key != ""
  {
    Entry(fd[FieldName(name, "key", i)],
          Get(fd, FieldName(name, "value", i)),
          if FieldName(name, "dtype", i) in fd then fd[FieldName(name, "dtype", i)] else "str",
          Get(fd, FieldName(name, "comment", i)))
  }

  /** A comment is recorded only when its input is present and not empty. */
  predicate Commented(e: Entry)
  {
    e.comment.Some? && e.comment.value != ""
  }

  /** Reading one entry; `None` when its conversion raises TypeError. */
  function Apply(acc: Acc, e: Entry, floatStr: string -> Option<string>): Option<Acc>
  {
    var c := ConvertValue(e.value, e.dtype, floatStr);
    if c.TypeError? then None
    else
      var errors := if c.Unparsable? then acc.errors + [e.key + ": " + c.message] else acc.errors;
      var result := acc.result[e.key := if c.Converted? then c.value else c.raw];
      var aliased := acc.aliased && e.key != "comments";
      if Commented(e) then
        var comments := acc.comments[e.key := e.comment.value];
        Some(Acc(if aliased then result["comments" := VDict(comments)] else result, comments, aliased, errors))
      else
        Some(Acc(result, acc.comments, aliased, errors))
  }

  /** Reading entries 0 .. n-1 in order. */
  function Collect(fd: FormData, name: string, n: nat, floatStr: string -> Option<string>): Option<Acc>
    requires forall j :: 0 <= j < n ==> KeyPresent(fd, name, j)
  {
    if n == 0 then Some(InitialAcc)
    else
      var prev := Collect(fd, name, n - 1, floatStr);
      if prev.None? then None else Apply(prev.value, ReadEntry(fd, name, n - 1), floatStr)
  }

  /** One more entry read, and a form that has it has that many inputs. */
  lemma CollectNext(fd: FormData, name: string, n: nat, floatStr: string -> Option<string>)
    requires forall j :: 0 <= j <= n ==> KeyPresent(fd, name, j)
    requires Collect(fd, name, n, floatStr).Some?
    ensures Collect(fd, name, n + 1, floatStr) == Apply(Collect(fd, name, n, floatStr).value, ReadEntry(fd, name, n), floatStr)
    ensures n + 1 <= |fd|
  {
    EntriesBounded(fd, name, n + 1);
  }

  /** `result` holds a `comments` entry, which is the comments dictionary
      itself as long as it was not overwritten. */
  predicate Shaped(acc: Acc)
  {
    "comments" in acc.result && (acc.aliased ==> acc.result["comments"] == VDict(acc.comments))
  }

  lemma {:induction false} CollectShaped(fd: FormData, name: string, n: nat, floatStr: string -> Option<string>)
    requires forall j :: 0 <= j < n ==> KeyPresent(fd, name, j)
    requires Collect(fd, name, n, floatStr).Some?
    ensures Shaped(Collect(fd, name, n, floatStr).value)
  {
    if n > 0 {
      CollectShaped(fd, name, n - 1, floatStr);
      var prev, e := CollectStep(fd, name, n, floatStr);
      ApplyFields(prev, e, floatStr);
    }
  }

  /** The comments dictionary stays in `result` exactly while no entry has
      the key `comments`. */
  lemma {:induction false} CollectAliased(fd: FormData, name: string, n: nat, floatStr: string -> Option<string>)
    requires forall j :: 0 <= j < n ==> KeyPresent(fd, name, j)
    requires Collect(fd, name, n, floatStr).Some?
    ensures Collect(fd, name, n, floatStr).value.aliased <==> forall j :: 0 <= j < n ==> ReadEntry(fd, name, j).key != "comments"
  {
    if n > 0 {
      CollectAliased(fd, name, n - 1, floatStr);
      var prev, e := CollectStep(fd, name, n, floatStr);
      ApplyFields(prev, e, floatStr);
      if Collect(fd, name, n, floatStr).value.aliased {
        forall j | 0 <= j < n
          ensures ReadEntry(fd, name, j).key != "comments"
        {
          if j < n - 1 {
            assert prev.aliased;
          }
        }
      } else if !prev.aliased {
        var j :| 0 <= j < n - 1 && ReadEntry(fd, name, j).key == "comments";
        assert ReadEntry(fd, name, j).key == "comments";
      } else {
        assert ReadEntry(fd, name, n - 1).key == "comments";
      }
    }
  }

  /** A key has a comment exactly when some entry with that key carried a
      non-empty comment input. */
  lemma {:induction false} CollectCommentKeys(fd: FormData, name: string, n: nat, floatStr: string -> Option<string>)
    requires forall j :: 0 <= j < n ==> KeyPresent(fd, name, j)
    requires Collect(fd, name, n, floatStr).Some?
    ensures forall k :: k in Collect(fd, name, n, floatStr).value.comments <==>
      exists j :: 0 <= j < n && ReadEntry(fd, name, j).key == k && Commented(ReadEntry(fd, name, j))
  {
    if n > 0 {
      CollectCommentKeys(fd, name, n - 1, floatStr);
      var prev, e := CollectStep(fd, name, n, floatStr);
      ApplyFields(prev, e, floatStr);
      var cur := Collect(fd, name, n, floatStr).value;
      forall k | exists j :: 0 <= j < n && ReadEntry(fd, name, j).key == k && Commented(ReadEntry(fd, name, j))
        ensures k in cur.comments
      {
        var j :| 0 <= j < n && ReadEntry(fd, name, j).key == k && Commented(ReadEntry(fd, name, j));
        if j < n - 1 {
          assert k in prev.comments;
        }
      }
    }
  }

  /** Every entry read has its key in `result`. */
  lemma {:induction false} CollectResultKeys(fd: FormData, name: string, n: nat, floatStr: string -> Option<string>)
    requires forall j :: 0 <= j < n ==> KeyPresent(fd, name, j)
    requires Collect(fd, name, n, floatStr).Some?
    ensures forall j :: 0 <= j < n ==> ReadEntry(fd, name, j).key in Collect(fd, name, n, floatStr).value.result
  {
    if n > 0 {
      CollectResultKeys(fd, name, n - 1, floatStr);
      var prev, e := CollectStep(fd, name, n, floatStr);
      ApplyFields(prev, e, floatStr);
      var cur := Collect(fd, name, n, floatStr).value;
      forall j | 0 <= j < n
        ensures ReadEntry(fd, name, j).key in cur.result
      {
        if j < n - 1 {
          assert ReadEntry(fd, name, j).key in prev.result;
        }
      }
    }
  }

  /** Errors are only ever appended, one per entry at most. */
  lemma {:induction false} CollectErrorsBounded(fd: FormData, name: string, n: nat, floatStr: string -> Option<string>)
    requires forall j :: 0 <= j < n ==> KeyPresent(fd, name, j)
    requires Collect(fd, name, n, floatStr).Some?
    ensures |Collect(fd, name, n, floatStr).value.errors| <= n
  {
    if n > 0 {
      CollectErrorsBounded(fd, name, n - 1, floatStr);
      var prev, e := CollectStep(fd, name, n, floatStr);
      ApplyFields(prev, e, floatStr);
    }
  }

  /** The last of n > 0 entries read: the state before it and the entry. */
  lemma CollectStep(fd: FormData, name: string, n: nat, floatStr: string -> Option<string>) returns (prev: Acc, e: Entry)
    requires 0 < n && forall j :: 0 <= j < n ==> KeyPresent(fd, name, j)
    requires Collect(fd, name, n, floatStr).Some?
    ensures Collect(fd, name, n - 1, floatStr) == Some(prev)
    ensures e == ReadEntry(fd, name, n - 1)
    ensures Apply(prev, e, floatStr) == Collect(fd, name, n, floatStr)
  {
    prev := Collect(fd, name, n - 1, floatStr).value;
    e := ReadEntry(fd, name, n - 1);
  }

  /** What reading one entry does to each part of the state. */
  lemma ApplyFields(acc: Acc, e: Entry, floatStr: string -> Option<string>)
    requires Apply(acc, e, floatStr).Some?
    ensures var a := Apply(acc, e, floatStr).value;
      && acc.result.Keys + {e.key} <= a.result.Keys
      && a.aliased == (acc.aliased && e.key != "comments")
      && a.comments == (if Commented(e) then acc.comments[e.key := e.comment.value] else acc.comments)
      && |acc.errors| <= |a.errors| <= |acc.errors| + 1
      && (Shaped(acc) ==> Shaped(a))
  {
  }

  /** Two forms give entry `j` the same key, value, dtype and comment inputs. */
  predicate SameInputs(fd1: FormData, fd2: FormData, name: string, j: nat)
  {
    && Get(fd1, FieldName(name, "key", j)) == Get(fd2, FieldName(name, "key", j))
    && Get(fd1, FieldName(name, "value", j)) == Get(fd2, FieldName(name, "value", j))
    && Get(fd1, FieldName(name, "dtype", j)) == Get(fd2, FieldName(name, "dtype", j))
    && Get(fd1, FieldName(name, "comment", j)) == Get(fd2, FieldName(name, "comment", j))
  }

  /** Two forms that agree on the inputs of entries 0 .. n-1 build the same
      state from them: inputs of other indices play no part. */
  lemma {:induction false} CollectReadsOnlyItsEntries(fd1: FormData, fd2: FormData, name: string, n: nat, floatStr: string -> Option<string>)
    requires forall j :: 0 <= j < n ==> KeyPresent(fd1, name, j)
    requires forall j :: 0 <= j < n ==> SameInputs(fd1, fd2, name, j)
    ensures forall j :: 0 <= j < n ==> KeyPresent(fd2, name, j)
    ensures Collect(fd1, name, n, floatStr) == Collect(fd2, name, n, floatStr)
  {
    forall j | 0 <= j < n
      ensures KeyPresent(fd2, name, j)
    {
      assert KeyPresent(fd1, name, j) && SameInputs(fd1, fd2, name, j);
    }
    if n > 0 {
      CollectReadsOnlyItsEntries(fd1, fd2, name, n - 1, floatStr);
      SameEntry(fd1, fd2, name, n - 1);
    }
  }

  lemma SameEntry(fd1: FormData, fd2: FormData, name: string, j: nat)
    requires KeyPresent(fd1, name, j) && KeyPresent(fd2, name, j)
    requires SameInputs(fd1, fd2, name, j)
    ensures ReadEntry(fd1, name, j) == ReadEntry(fd2, name, j)
  {
  }

  /** The number of entries read depends only on the key inputs from index 0
      up to the first missing one: every later input is ignored. */
  lemma EntryCountReadsOnlyPrefix(fd1: FormData, fd2: FormData, name: string)
    requires forall j :: 0 <= j <= EntryCount(fd1, name) ==>
      Get(fd1, FieldName(name, "key", j)) == Get(fd2, FieldName(name, "key", j))
    ensures EntryCount(fd1, name) == EntryCount(fd2, name)
  {
    var n := EntryCount(fd1, name);
    forall j | 0 <= j < n
      ensures KeyPresent(fd2, name, j)
    {
      assert KeyPresent(fd1, name, j);
      assert Get(fd1, FieldName(name, "key", j)) == Get(fd2, FieldName(name, "key", j));
    }
    assert Get(fd1, FieldName(name, "key", n)) == Get(fd2, FieldName(name, "key", n));
    EntryCountUnique(fd2, name, n);
  }

  /** What `process` raises and does not catch. */
  datatype Exception = TypeErrorRaised | KeyErrorRaised(key: string)

  /** The effect of `process`: the new `data`, the new `process_errors`, and
      the exception raised, if any. */
  datatype Outcome = Outcome(data: Option<MetaDict>, errors: seq<string>, raised: Option<Exception>)

  /** What `process(formdata, data)` does, as a function of its inputs. */
  function ProcessOutcome(name: string, required: seq<Metadata.RequiredEntry>, formdata: Option<FormData>,
                          initial: Option<MetaDict>, floatStr: string -> Option<string>): Outcome
  {
    if formdata.None? || |formdata.value| == 0 then Outcome(initial, [], None)
    else
      var fd := formdata.value;
      var acc := Collect(fd, name, EntryCount(fd, name), floatStr);
      if acc.None? then Outcome(initial, CollectedErrorsBeforeTypeError(fd, name, floatStr), Some(TypeErrorRaised))
      else
        var v := Metadata.ValidateMetadata(acc.value.result, required);
        if v.Err? && v.error.KeyError? then Outcome(initial, acc.value.errors, Some(KeyErrorRaised(v.error.key)))
        else if v.Err? then Outcome(Some(acc.value.result), acc.value.errors + [Metadata.Message(v.error)], None)
        else Outcome(Some(acc.value.result), acc.value.errors, None)
  }

  /** The errors appended before the entry whose conversion raised TypeError. */
  function CollectedErrorsBeforeTypeError(fd: FormData, name: string, floatStr: string -> Option<string>): seq<string>
  {
    ErrorsBefore(fd, name, EntryCount(fd, name), floatStr)
  }

  function ErrorsBefore(fd: FormData, name: string, n: nat, floatStr: string -> Option<string>): seq<string>
    requires forall j :: 0 <= j < n ==> KeyPresent(fd, name, j)
  {
    if n == 0 then []
    else
      var prev := Collect(fd, name, n - 1, floatStr);
      if prev.Some? then prev.value.errors else ErrorsBefore(fd, name, n - 1, floatStr)
  }

  /** With no form data, `data` keeps what the base class set and no error is
      recorded. */
  lemma EmptyFormKeepsData(name: string, required: seq<Metadata.RequiredEntry>, formdata: Option<FormData>,
                           initial: Option<MetaDict>, floatStr: string -> Option<string>)
    requires formdata.None? || formdata.value == map[]
    ensures ProcessOutcome(name, required, formdata, initial, floatStr) == Outcome(initial, [], None)
  {
  }

  /** A failed validation is recorded as the last error while `data` is
      still set to the parsed dictionary. */
  lemma ValidationFailureStillSetsData(name: string, required: seq<Metadata.RequiredEntry>, fd: FormData,
                                       initial: Option<MetaDict>, floatStr: string -> Option<string>)
    requires fd != map[]
    requires Collect(fd, name, EntryCount(fd, name), floatStr).Some?
    requires var acc := Collect(fd, name, EntryCount(fd, name), floatStr).value;
      Metadata.ValidateMetadata(acc.result, required).Err? &&
      !Metadata.ValidateMetadata(acc.result, required).error.KeyError?
    ensures var acc := Collect(fd, name, EntryCount(fd, name), floatStr).value;
      var out := ProcessOutcome(name, required, Some(fd), initial, floatStr);
      && out.data == Some(acc.result)
      && |out.errors| > 0
      && out.errors[|out.errors| - 1] == Metadata.Message(Metadata.ValidateMetadata(acc.result, required).error)
      && out.raised.None?
  {
    assert |fd| != 0;
  }

  /** With the default table, `process` never raises KeyError. */
  lemma DefaultTableProcessNoKeyError(name: string, formdata: Option<FormData>, initial: Option<MetaDict>,
                                      floatStr: string -> Option<string>)
    ensures !ProcessOutcome(name, Metadata.DefaultRequiredMetadata, formdata, initial, floatStr).raised.Some? ||
            !ProcessOutcome(name, Metadata.DefaultRequiredMetadata, formdata, initial, floatStr).raised.value.KeyErrorRaised?
  {
    if formdata.Some? && |formdata.value| != 0 {
      var fd := formdata.value;
      var acc := Collect(fd, name, EntryCount(fd, name), floatStr);
      if acc.Some? {
        Metadata.DefaultTableNeverKeyError(acc.value.result);
      }
    }
  }

  class MetadataField {
    const name: string
    const requiredMetadata: seq<Metadata.RequiredEntry>
    var data: Option<MetaDict>
    var processErrors: seq<string>

    constructor (name: string)
      ensures this.name == name && requiredMetadata == Metadata.DefaultRequiredMetadata
      ensures data.None? && processErrors == []
    {
      this.name := name;
      requiredMetadata := Metadata.DefaultRequiredMetadata;
      data := None;
      processErrors := [];
    }

    /** `getfieldname(basename, index)`. */
    function GetFieldName(basename: string, index: int): (r: string)
      ensures r == FieldName(name, basename, index)
    {
      FieldName(name, basename, index)
    }

    /** `process(formdata, data)`. The base-class call is modelled as
        resetting `process_errors` and setting `data` to `initial`. */
    method Process(floatStr: string -> Option<string>, formdata: Option<FormData>, initial: Option<MetaDict> := None)
      returns (r: Result<Option<MetaDict>, Exception>)
      modifies this
      ensures var out := ProcessOutcome(name, requiredMetadata, formdata, initial, floatStr);
        && data == out.data && processErrors == out.errors
        && (out.raised.None? ==> r == Ok(data))
        && (out.raised.Some? ==> r == Err(out.raised.value))
    {
      processErrors := [];
      data := initial;
      if formdata.None? || |formdata.value| == 0 {
        return Ok(data);
      }
      var read := ReadEntries(formdata.value, floatStr);
      if read.None? {
        return Err(TypeErrorRaised);
      }
      var result := read.value.result;
      // `validate_metadata` either returns True or raises.
      var valid := Metadata.ValidateMetadata(result, requiredMetadata);
      if valid.Err? {
        if valid.error.KeyError? {
          return Err(KeyErrorRaised(valid.error.key));
        }
        processErrors := processErrors + [Metadata.Message(valid.error)];
      }
      data := Some(result);
      r := Ok(data);
    }

    /** The `while True` loop of `process`: reads entries 0, 1, ... until a
        key input is missing or empty, appending each ValueError to
        `process_errors`; `None` when a conversion raises TypeError. */
    method ReadEntries(fd: FormData, floatStr: string -> Option<string>) returns (read: Option<Acc>)
      requires processErrors == []
      modifies this`processErrors
      ensures read == Collect(fd, name, EntryCount(fd, name), floatStr)
      ensures read.Some? ==> processErrors == read.value.errors
      ensures read.None? ==> processErrors == CollectedErrorsBeforeTypeError(fd, name, floatStr)
    {
      var result: MetaDict := map["comments" := VDict(map[])];
      var comments: map<string, string> := map[];
      var aliased := true;
      var index: nat := 0;
      while true
        invariant forall j :: 0 <= j < index ==> KeyPresent(fd, name, j)
        invariant Collect(fd, name, index, floatStr) == Some(Acc(result, comments, aliased, processErrors))
        decreases |fd| - index
      {
        var keyField := GetFieldName("key", index);
        if keyField !in fd || fd[keyField] == "" {
          break;
        }
        var key := fd[keyField];
        var valueField := GetFieldName("value", index);
        var val: Option<string> := if valueField in fd then Some(fd[valueField]) else None;
        var dtypeField := GetFieldName("dtype", index);
        var dtype := if dtypeField in fd then fd[dtypeField] else "str";
        var commentField := GetFieldName("comment", index);
        var comment: Option<string> := if commentField in fd then Some(fd[commentField]) else None;
        ghost var e := Entry(key, val, dtype, comment);
        assert e == ReadEntry(fd, name, index);
        ghost var before := Acc(result, comments, aliased, processErrors);
        // The `try` block: the converted value, or the exception it raises.
        var conversion := ConvertValue(val, dtype, floatStr);
        if conversion.TypeError? {
          ErrorsBeforeTypeError(fd, name, index, floatStr);
          return None;
        }
        // The `except ValueError` clause keeps the raw value.
        if conversion.Unparsable? {
          processErrors := processErrors + [key + ": " + conversion.message];
        }
        var v := if conversion.Converted? then conversion.value else conversion.raw;
        result := result[key := v];
        if key == "comments" {
          aliased := false;
        }
        if comment.Some? && comment.value != "" {
          comments := comments[key := comment.value];
          if aliased {
            result := result["comments" := VDict(comments)];
          }
        }
        assert Apply(before, e, floatStr) == Some(Acc(result, comments, aliased, processErrors));
        CollectNext(fd, name, index, floatStr);
        index := index + 1;
      }
      EntryCountUnique(fd, name, index);
      read := Some(Acc(result, comments, aliased, processErrors));
    }
  }

  /** When entry `n` raises TypeError after entries 0 .. n-1 were read, the
      errors left are those of the first n entries. */
  lemma ErrorsBeforeTypeError(fd: FormData, name: string, n: nat, floatStr: string -> Option<string>)
    requires forall j :: 0 <= j <= n ==> KeyPresent(fd, name, j)
    requires Collect(fd, name, n, floatStr).Some?
    requires Apply(Collect(fd, name, n, floatStr).value, ReadEntry(fd, name, n), floatStr).None?
    ensures EntryCount(fd, name) > n
    ensures Collect(fd, name, EntryCount(fd, name), floatStr).None?
    ensures CollectedErrorsBeforeTypeError(fd, name, floatStr) == Collect(fd, name, n, floatStr).value.errors
  {
    var count := EntryCount(fd, name);
    assert count > n;
    AfterTypeError(fd, name, n, count, floatStr);
  }

  lemma {:induction false} AfterTypeError(fd: FormData, name: string, n: nat, m: nat, floatStr: string -> Option<string>)
    requires forall j :: 0 <= j < m ==> KeyPresent(fd, name, j)
    requires n < m
    requires Collect(fd, name, n, floatStr).Some?
    requires Apply(Collect(fd, name, n, floatStr).value, ReadEntry(fd, name, n), floatStr).None?
    ensures Collect(fd, name, m, floatStr).None?
    ensures ErrorsBefore(fd, name, m, floatStr) == Collect(fd, name, n, floatStr).value.errors
  {
    if m > n + 1 {
      AfterTypeError(fd, name, n, m - 1, floatStr);
      assert Collect(fd, name, m - 1, floatStr).None?;
      assert ErrorsBefore(fd, name, m, floatStr) == ErrorsBefore(fd, name, m - 1, floatStr);
    } else {
      assert Collect(fd, name, m - 1, floatStr).Some?;
      assert Collect(fd, name, m, floatStr) == Apply(Collect(fd, name, n, floatStr).value, ReadEntry(fd, name, n), floatStr);
    }
  }
}
