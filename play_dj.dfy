/** The `play_dj` service: it rewrites the data of a service call so that it
    asks for the Spotify DJ, keeps only the extras that matter to the DJ, and
    hands the call on to the generic play-media service. */
module Services {
  import opened PyDict

  /** The values a service call carries. */
  datatype Value =
    | NoneValue
    | Boolean(b: bool)
    | Number(n: int)
    | Text(s: string)
    | Mapping(m: Dict<string, Value>)

  /** The Python exceptions the rewrite can raise. */
  datatype PyError =
    | UnboundLocalError(variable: string)
    | AttributeError(attribute: string)

  datatype Result<T> = Success(value: T) | Failure(error: PyError)

  datatype Option<T> = None | Some(value: T)

  /** `keep`: the only extras that are relevant to the DJ. */
  const KEEP: seq<string> := ["volume"]

  /** `dict.get(key)`: the value under `key`, or None when it is absent. */
  function Get(d: Dict<string, Value>, key: string): (v: Value)
    ensures key in d.entries ==> v == d.entries[key]
    ensures key !in d.entries ==> v == NoneValue
  {
    if key in d.entries then d.entries[key] else NoneValue
  }

  /** A nested dictionary is a proper Python dict. */
  ghost predicate WellFormedExtras(v: Value) {
    v.Mapping? ==> v.m.Valid()
  }

  /** What `_clean_extras` is documented to return and what it builds in its
      local `result`: the extras whose key is kept, with their values, in
      their original order. */
  function CleanExtras(extras: Dict<string, Value>): (result: Dict<string, Value>)
    requires extras.Valid()
    ensures result.Valid()
    ensures forall key :: key in result.entries <==> key in extras.entries && key in KEEP
    ensures forall key :: key in result.entries ==> result.entries[key] == extras.entries[key]
  {
    var kept := set key | key in KEEP;
    RestrictDistinct(extras.keys, kept);
    Dict(Restrict(extras.keys, kept), map key | key in extras.entries && key in KEEP :: extras.entries[key])
  }

  /** Since `volume` is the only kept key, the cleaned extras hold at most
      that one key. */
  lemma CleanExtrasKeepsOnlyVolume(extras: Dict<string, Value>)
    requires extras.Valid()
    ensures CleanExtras(extras).keys == if "volume" in extras.entries then ["volume"] else []
  {
    var kept: set<string> := set key | key in KEEP;
    assert kept == {"volume"};
    RestrictSingle(extras.keys, "volume");
  }

  /** Filtering a sequence without repetitions by one element leaves that
      element alone, or nothing. */
  lemma {:induction false} RestrictSingle(s: seq<string>, x: string)
    requires Distinct(s)
    ensures Restrict(s, {x}) == if x in s then [x] else []
  {
    if s != [] {
      var init, last := s[..|s| - 1], s[|s| - 1];
      assert forall y :: y in s <==> y in init || y == last;
      assert Distinct(init) by {
        forall a, b | 0 <= a < b < |init| ensures init[a] != init[b] {
          assert init[a] == s[a] && init[b] == s[b];
        }
      }
      assert last !in init by {
        forall a | 0 <= a < |init| ensures init[a] != last {
          assert init[a] == s[a];
        }
      }
      RestrictSingle(init, x);
    }
  }

  /** Cleaning cleaned extras changes nothing. */
  lemma CleanExtrasIsIdempotent(extras: Dict<string, Value>)
    requires extras.Valid()
    ensures CleanExtras(CleanExtras(extras)) == CleanExtras(extras)
  {
    var once := CleanExtras(extras);
    var kept := set key | key in KEEP;
    RestrictKeepsAll(once.keys, kept);
  }

  /** What `_clean_extras` actually returns: its loop variable `value`, bound
      to the value of the last key iterated, and unbound (an
      UnboundLocalError) when the dictionary is empty. */
  function ReturnedValue(extras: Dict<string, Value>): (returned: Result<Value>)
    requires extras.Valid()
    ensures returned.Failure? <==> extras.entries == map[]
    ensures returned.Failure? ==> returned.error == UnboundLocalError("value")
    ensures returned.Success? ==> extras.keys != [] && returned.value == extras.entries[extras.keys[|extras.keys| - 1]]
  {
    if extras.keys == [] then
      Failure(UnboundLocalError("value"))
    else
      assert extras.keys[0] in extras.entries;
      Success(extras.entries[extras.keys[|extras.keys| - 1]])
  }

  /** `result` holds what the loop of `_clean_extras` has stored after its
      first `i` iterations. */
  ghost predicate CleanedPrefix(extras: Dict<string, Value>, i: nat, result: Dict<string, Value>) {
    && i <= |extras.keys|
    && result.Valid()
    && result.keys == Restrict(extras.keys[..i], set key | key in KEEP)
    && result.entries == map key | key in extras.entries && key in extras.keys[..i] && key in KEEP :: extras.entries[key]
  }

  /** One more iteration stores the next key exactly when it is kept; the key
      was not stored before. */
  lemma CleanNext(extras: Dict<string, Value>, i: nat, result: Dict<string, Value>)
    requires extras.Valid() && CleanedPrefix(extras, i, result) && i < |extras.keys|
    ensures extras.keys[i] in extras.entries && extras.keys[i] !in result.entries
    ensures var key := extras.keys[i];
      CleanedPrefix(extras, i + 1, if key in KEEP then Put(result, key, extras.entries[key]) else result)
  {
    var keys := extras.keys;
    assert keys[..i + 1][..i] == keys[..i];
    assert keys[i] !in keys[..i];
    assert forall key :: key in keys[..i + 1] <==> key in keys[..i] || key == keys[i];
  }

  /** After the last iteration `result` is the cleaned extras. */
  lemma CleanedAll(extras: Dict<string, Value>, result: Dict<string, Value>)
    requires extras.Valid() && CleanedPrefix(extras, |extras.keys|, result)
    ensures result == CleanExtras(extras)
  {
    assert extras.keys[..|extras.keys|] == extras.keys;
  }

  /** `_clean_extras` as it is written: it builds the cleaned extras in
      `result` but returns the leaked loop variable `value`. */
  method CleanExtrasAsWritten(extras: Dict<string, Value>) returns (returned: Result<Value>, result: Dict<string, Value>)
    requires extras.Valid()
    ensures result == CleanExtras(extras)
    ensures returned == ReturnedValue(extras)
  {
    result := Dict([], map[]);
    var value: Option<Value> := None;
    var i := 0;
    while i < |extras.keys|
      invariant CleanedPrefix(extras, i, result)
      invariant value == if i == 0 then None else Some(extras.entries[extras.keys[i - 1]])
    {
      CleanNext(extras, i, result);
      var key := extras.keys[i];
      value := Some(extras.entries[key]);
      if key in KEEP {
        result := Put(result, key, value.value);
      }
      i := i + 1;
    }
    CleanedAll(extras, result);
    if value.None? {
      returned := Failure(UnboundLocalError("value"));
    } else {
      returned := Success(value.value);
    }
  }

  /** With a volume and one more extra after it, `_clean_extras` returns the
      other extra's bare value instead of the dict holding the volume. */
  lemma CleanExtrasReturnsLastValue()
    ensures var extras := Dict(["volume", "position"], map["volume" := Number(50), "position" := Number(3)]);
      && extras.Valid()
      && CleanExtras(extras) == Dict(["volume"], map["volume" := Number(50)])
      && ReturnedValue(extras) == Success(Number(3))
      && ReturnedValue(extras) != Success(Mapping(CleanExtras(extras)))
  {
    var extras := Dict(["volume", "position"], map["volume" := Number(50), "position" := Number(3)]);
    CleanExtrasKeepsOnlyVolume(extras);
  }

  /** With empty extras, `_clean_extras` fails instead of returning an empty dict. */
  lemma CleanExtrasOfEmptyFails()
    ensures var extras: Dict<string, Value> := Dict([], map[]);
      && extras.Valid()
      && ReturnedValue(extras) == Failure(UnboundLocalError("value"))
      && CleanExtras(extras) == Dict([], map[])
  {
  }

  /** The value `async_play_dj` puts back under "data", as written. It fails
      exactly when the extras are present but are not a non-empty dict: an
      empty dict leaves the loop variable of `_clean_extras` unbound, and a
      value that is not a dict has no `items`. Otherwise absent extras stay
      None and a non-empty dict becomes the value of its last key. */
  function ExtrasAsWritten(extras: Value): (r: Result<Value>)
    requires WellFormedExtras(extras)
    ensures r.Failure? <==> extras != NoneValue && !(extras.Mapping? && extras.m.entries != map[])
    ensures r.Failure? ==> r.error == if extras.Mapping? then UnboundLocalError("value") else AttributeError("items")
    ensures r.Success? && !extras.Mapping? ==> r.value == NoneValue
    ensures r.Success? && extras.Mapping? ==>
              extras.m.keys != [] && r.value == extras.m.entries[extras.m.keys[|extras.m.keys| - 1]]
  {
    match extras
    case NoneValue => Success(NoneValue)
    case Mapping(m) => ReturnedValue(m)
    case _ => Failure(AttributeError("items"))
  }

  /** The call data `async_play_dj` hands on: a copy of `data` in which
      "spotify_uri" is the DJ's URI and "data" is `extras`. */
  function WithDjRequest(data: Dict<string, Value>, djUri: string, extras: Value): (r: Dict<string, Value>)
    requires data.Valid()
    ensures r.Valid()
    ensures "spotify_uri" in r.entries && r.entries["spotify_uri"] == Text(djUri)
    ensures "data" in r.entries && r.entries["data"] == extras
    ensures forall key :: key != "spotify_uri" && key != "data" ==>
              (key in r.entries <==> key in data.entries) &&
              (key in data.entries ==> r.entries[key] == data.entries[key])
    ensures data.keys <= r.keys
  {
    Put(Put(data, "spotify_uri", Text(djUri)), "data", extras)
  }

  /** Lines 37-44 of `async_play_dj`: the new call data, or the exception
      `_clean_extras` raises. */
  method RewriteCallData(data: Dict<string, Value>, djUri: string) returns (r: Result<Dict<string, Value>>)
    requires data.Valid() && WellFormedExtras(Get(data, "data"))
    ensures ExtrasAsWritten(Get(data, "data")).Failure? ==>
              r == Failure(ExtrasAsWritten(Get(data, "data")).error)
    ensures ExtrasAsWritten(Get(data, "data")).Success? ==>
              r == Success(WithDjRequest(data, djUri, ExtrasAsWritten(Get(data, "data")).value))
  {
    var extras := Get(data, "data");
    if extras != NoneValue {
      if !extras.Mapping? {
        return Failure(AttributeError("items"));
      }
      var returned, _ := CleanExtrasAsWritten(extras.m);
      if returned.Failure? {
        return Failure(returned.error);
      }
      extras := returned.value;
    }
    var callData := data;
    callData := Put(callData, "spotify_uri", Text(djUri));
    callData := Put(callData, "data", extras);
    r := Success(callData);
  }

  /** A service call; the handler replaces its data. */
  class ServiceCall {
    var data: Dict<string, Value>

    constructor (data: Dict<string, Value>)
      ensures this.data == data
    {
      this.data := data;
    }
  }

  /** `async_play_dj` up to the hand-off to the play-media service: the call's
      data is replaced by the rewritten data, or the exception propagates and
      the call is left as it was. */
  method AsyncPlayDj(call: ServiceCall, djUri: string) returns (raised: Option<PyError>)
    requires call.data.Valid() && WellFormedExtras(Get(call.data, "data"))
    modifies call
    ensures var extras := ExtrasAsWritten(Get(old(call.data), "data"));
      && (extras.Failure? ==> raised == Some(extras.error) && call.data == old(call.data))
      && (extras.Success? ==> raised == None && call.data == WithDjRequest(old(call.data), djUri, extras.value))
  {
    var r := RewriteCallData(call.data, djUri);
    if r.Failure? {
      return Some(r.error);
    }
    call.data := r.value;
    raised := None;
  }
}
