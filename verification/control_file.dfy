/**
  The control file that `LocalOutputWriter.write` exports: a left-to-right merge
  of the interpreter parameters, the interpreter metrics and the anomaly flag,
  where a later artifact's value wins on a shared key.
 */
module ControlFile {
  import opened Wrappers

  /** The JSON values an artifact holds; None from Python becomes `null`. */
  datatype Value =
    | Null
    | Bool(b: bool)
    | Number(r: real)
    | Text(s: string)

  type Artifact = map<string, Value>

  /** `build_flag_dict`: a one-key artifact. */
  function BuildFlagDict(key: string, value: Value): (r: Artifact)
    ensures r.Keys == {key}
    ensures r[key] == value
  {
    map[key := value]
  }

  /** Every key of some artifact in the list. */
  function AllKeys(arts: seq<Artifact>): set<string>
  {
    set i, k | 0 <= i < |arts| && k in arts[i] :: k
  }

  /**
    Reference definition of a merged value: the key's value in the LAST artifact
    that has it.
   */
  function LatestValue(arts: seq<Artifact>, k: string): (v: Value)
    requires k in AllKeys(arts)
    ensures exists i :: 0 <= i < |arts| && k in arts[i] && v == arts[i][k]
                        && forall j :: i < j < |arts| ==> k !in arts[j]
    decreases |arts|
  {
    var n := |arts| - 1;
    if k in arts[n] then arts[n][k]
    else
      var w :| 0 <= w < |arts| && k in arts[w];
      assert k in arts[..n][w];
      var v := LatestValue(arts[..n], k);
      var i :| 0 <= i < n && k in arts[..n][i] && v == arts[..n][i][k]
                && forall j :: i < j < n ==> k !in arts[..n][j];
      assert k in arts[i] && v == arts[i][k];
      v
  }

  /**
    `build_control_file_dict`: merges the artifacts left to right, so the key set is
    the union of theirs and each key holds the value of the last artifact that has it.
   */
  method BuildControlFileDict(arts: seq<Artifact>) returns (r: Artifact)
    ensures r.Keys == AllKeys(arts)
    ensures forall k :: k in r ==> r[k] == LatestValue(arts, k)
  {
    r := map[];
    var i := 0;
    while i < |arts|
      invariant 0 <= i <= |arts|
      invariant r.Keys == AllKeys(arts[..i])
      invariant forall k :: k in r ==> r[k] == LatestValue(arts[..i], k)
    {
      assert arts[..i + 1] == arts[..i] + [arts[i]];
      AllKeysSnoc(arts[..i], arts[i]);
      forall k | k in r + arts[i] ensures (r + arts[i])[k] == LatestValue(arts[..i + 1], k) {
        LatestSnoc(arts[..i], arts[i], k);
      }
      r := r + arts[i];
      i := i + 1;
    }
    assert arts[..i] == arts;
  }

  /** Appending an artifact adds its keys. */
  lemma AllKeysSnoc(arts: seq<Artifact>, a: Artifact)
    ensures AllKeys(arts + [a]) == AllKeys(arts) + a.Keys
  {
    var b := arts + [a];
    forall k | k in AllKeys(b) ensures k in AllKeys(arts) + a.Keys {
      var i :| 0 <= i < |b| && k in b[i];
      if i < |arts| { assert b[i] == arts[i]; }
    }
    forall k | k in AllKeys(arts) ensures k in AllKeys(b) {
      var i :| 0 <= i < |arts| && k in arts[i];
      assert b[i] == arts[i];
    }
    forall k | k in a ensures k in AllKeys(b) {
      assert b[|arts|] == a;
    }
  }

  /** Appending an artifact: its value wins on its keys, the earlier merge stands on the rest. */
  lemma LatestSnoc(arts: seq<Artifact>, a: Artifact, k: string)
    requires k in AllKeys(arts + [a])
    ensures k !in a ==> k in AllKeys(arts)
    ensures LatestValue(arts + [a], k) == if k in a then a[k] else LatestValue(arts, k)
  {
    var b := arts + [a];
    assert b[|arts|] == a;
    assert b[..|arts|] == arts;
    AllKeysSnoc(arts, a);
  }

  /** An empty list gives the empty map; a single artifact comes back unchanged. */
  method MergeEdgeCases(a: Artifact) returns (empty: Artifact, single: Artifact)
    ensures empty == map[]
    ensures single == a
  {
    empty := BuildControlFileDict([]);
    single := BuildControlFileDict([a]);
    assert [] + [a] == [a];
    AllKeysSnoc([], a);
    forall k | k in single ensures single[k] == a[k] {
      LatestSnoc([], a, k);
    }
  }

  /** Three artifacts merged: the key set is their union and the rightmost holder of a key wins. */
  lemma MergeOfThree(a: Artifact, b: Artifact, c: Artifact)
    ensures AllKeys([a, b, c]) == a.Keys + b.Keys + c.Keys
    ensures forall k :: k in AllKeys([a, b, c]) ==>
              LatestValue([a, b, c], k) == if k in c then c[k] else if k in b then b[k] else a[k]
  {
    KeysOfThree(a, b, c);
    forall k | k in AllKeys([a, b, c])
      ensures LatestValue([a, b, c], k) == if k in c then c[k] else if k in b then b[k] else a[k]
    {
      LatestOfThree(a, b, c, k);
    }
  }

  lemma KeysOfThree(a: Artifact, b: Artifact, c: Artifact)
    ensures AllKeys([a, b, c]) == a.Keys + b.Keys + c.Keys
  {
    var arts := [a, b, c];
    assert arts[0] == a && arts[1] == b && arts[2] == c;
    forall k | k in a.Keys + b.Keys + c.Keys ensures k in AllKeys(arts) {
      if k in a { assert k in arts[0]; }
      else if k in b { assert k in arts[1]; }
      else { assert k in arts[2]; }
    }
  }

  lemma LatestOfThree(a: Artifact, b: Artifact, c: Artifact, k: string)
    requires k in AllKeys([a, b, c])
    ensures LatestValue([a, b, c], k) == if k in c then c[k] else if k in b then b[k] else a[k]
  {
    var arts := [a, b, c];
    var v := LatestValue(arts, k);
    var i :| 0 <= i < |arts| && k in arts[i] && v == arts[i][k] && forall j :: i < j < |arts| ==> k !in arts[j];
    assert arts[0] == a && arts[1] == b && arts[2] == c;
  }

  datatype WriteError = NotAMapping(name: string)

  /** The anomaly flag as the output dictionary holds it: missing becomes `null`. */
  function FlagValue(flag: Option<bool>): Value
  {
    match flag
    case Some(b) => Bool(b)
    case None => Null
  }

  const AnomalyKey: string := "is_anomaly_exist"

  /**
    The control file of `write`: params, then metrics, then the anomaly flag. A
    missing params or metrics entry makes the `**` unpacking fail. Otherwise the
    control file maps `is_anomaly_exist` to the flag whatever params or metrics
    say, and every other key to the metrics value if metrics has it, else the
    params value.
   */
  method ControlFileOf(params: Option<Artifact>, metrics: Option<Artifact>, flag: Option<bool>)
    returns (r: Result<Artifact, WriteError>)
    ensures r.Failure? <==> params.None? || metrics.None?
    ensures params.None? ==> r == Failure(NotAMapping("interpreter_params"))
    ensures params.Some? && metrics.None? ==> r == Failure(NotAMapping("interpreter_metrics"))
    ensures r.Success? ==>
              && r.value.Keys == params.value.Keys + metrics.value.Keys + {AnomalyKey}
              && r.value[AnomalyKey] == FlagValue(flag)
              && forall k :: k in r.value && k != AnomalyKey ==>
                   r.value[k] == if k in metrics.value then metrics.value[k] else params.value[k]
  {
    if params.None? {
      return Failure(NotAMapping("interpreter_params"));
    }
    if metrics.None? {
      return Failure(NotAMapping("interpreter_metrics"));
    }
    var anomaly := BuildFlagDict(AnomalyKey, FlagValue(flag));
    var merged := BuildControlFileDict([params.value, metrics.value, anomaly]);
    MergeOfThree(params.value, metrics.value, anomaly);
    return Success(merged);
  }
}
