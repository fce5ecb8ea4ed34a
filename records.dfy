/** The module entries of the checklist and the key that identifies them.
    The application keys its maps, its duplicate checks and its edit form by
    the text `${ruName}-${stars}` (utils.js, hooks.js, app.jsx), while the
    learned toggle and delete compare the two fields directly. */
module Records {
  import Text
  import opened Json
  import opened OrderedMaps

  /** An entry as the application holds it in its `modules` list. */
  datatype Module = Module(
    ruName: string,
    stars: int,
    enName: string,
    effect: string,
    learned: bool,
    isCustom: bool)

  /** The pair that identifies an entry. */
  datatype Key = Key(ruName: string, stars: int)

  function KeyOf(m: Module): Key
  {
    Key(m.ruName, m.stars)
  }

  /** The template literal `${ruName}-${stars}`. */
  function KeyString(k: Key): string
  {
    k.ruName + "-" + Text.IntToString(k.stars)
  }

  /** The key text of an entry. */
  function KeyText(m: Module): string
  {
    KeyString(KeyOf(m))
  }

  /** In `r + "-" + d` with `d` free of '-', the last '-' stands right after `r`. */
  lemma DashAfterName(r: string, d: string)
    requires forall i :: 0 <= i < |d| ==> d[i] != '-'
    ensures (r + "-" + d)[|r|] == '-'
    ensures forall i :: |r| < i < |r| + 1 + |d| ==> (r + "-" + d)[i] != '-'
  {
    var s := r + "-" + d;
    forall i | |r| < i < |r| + 1 + |d| ensures s[i] != '-' {
      assert s[i] == d[i - |r| - 1];
    }
  }

  /** With star counts that are not negative, the key text identifies the
      pair: two entries have the same key text exactly when they have the
      same name and star count. */
  lemma {:induction false} KeyStringInjective(a: Key, b: Key)
    requires a.stars >= 0 && b.stars >= 0
    ensures KeyString(a) == KeyString(b) <==> a == b
  {
    if KeyString(a) == KeyString(b) {
      var da, db := Text.NatToDecimal(a.stars), Text.NatToDecimal(b.stars);
      var s := KeyString(a);
      DashAfterName(a.ruName, da);
      DashAfterName(b.ruName, db);
      assert |a.ruName| == |b.ruName|;
      assert a.ruName == s[..|a.ruName|] == b.ruName;
      assert da == s[|a.ruName| + 1..] == db;
      Text.NatToDecimalInjective(a.stars, b.stars);
    }
  }

  /** With a negative star count the key text is ambiguous: two different
      pairs share the text "a-1--2". */
  lemma KeyStringCollision()
    ensures Key("a-1-", 2) != Key("a-1", -2)
    ensures KeyString(Key("a-1-", 2)) == KeyString(Key("a-1", -2))
  {
    assert Text.NatToDecimal(2) == "2";
  }

  /** The key texts of a list, in order. */
  function Keys(ms: seq<Module>): (ks: seq<string>)
    ensures |ks| == |ms|
    ensures forall i :: 0 <= i < |ms| ==> ks[i] == KeyText(ms[i])
  {
    if ms == [] then [] else [KeyText(ms[0])] + Keys(ms[1..])
  }

  /** No two entries of the list share a key text. */
  ghost predicate UniqueKeys(ms: seq<Module>)
  {
    forall i, j :: 0 <= i < j < |ms| ==> KeyText(ms[i]) != KeyText(ms[j])
  }

  /** The entry is present under the key text `k`. */
  predicate HasKey(ms: seq<Module>, k: string)
  {
    exists i | 0 <= i < |ms| :: KeyText(ms[i]) == k
  }

  /** The number of entries marked learned. */
  function LearnedCount(ms: seq<Module>): (n: nat)
    ensures n <= |ms|
  {
    if ms == [] then 0 else (if ms[0].learned then 1 else 0) + LearnedCount(ms[1..])
  }

  /** An entry as a JSON object carrying its six fields. */
  function ToJson(m: Module): (v: Val)
    ensures v.Obj?
    ensures Get(v, "ruName") == Str(m.ruName) && Get(v, "stars") == Num(m.stars)
    ensures Get(v, "enName") == Str(m.enName) && Get(v, "effect") == Str(m.effect)
    ensures Get(v, "learned") == Bool(m.learned) && Get(v, "isCustom") == Bool(m.isCustom)
  {
    Obj(map[
      "ruName" := Str(m.ruName),
      "stars" := Num(m.stars),
      "learned" := Bool(m.learned),
      "enName" := Str(m.enName),
      "effect" := Str(m.effect),
      "isCustom" := Bool(m.isCustom)])
  }
}
