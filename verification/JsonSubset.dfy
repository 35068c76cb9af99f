/** The matcher the API tests judge responses with (tests/main_test.go): is one JSON value
    a subset of another, and does it occur anywhere inside. */
module JsonSubset {
  import opened Prelude

  /** What encoding/json decodes to. */
  datatype Json =
    | Null
    | Bool(b: bool)
    | Number(n: real)
    | String(s: string)
    | Array(items: seq<Json>)
    | Object(fields: map<string, Json>)

  /** One step from a value to a part of it. */
  datatype Step = Key(k: string) | Index(i: nat)

  type Path = seq<Step>

  /** Objects may have more fields, arrays agree item by item, anything else is equal. */
  ghost predicate Subset(small: Json, big: Json)
    decreases small
  {
    match small
    case Object(fields) =>
      big.Object? && forall k :: k in fields ==> k in big.fields && Subset(fields[k], big.fields[k])
    case Array(items) =>
      big.Array? && |items| == |big.items| && forall i :: 0 <= i < |items| ==> Subset(items[i], big.items[i])
    case _ => small == big
  }

  function Child(a: Json, s: Step): Option<Json> {
    match (a, s)
    case (Object(fields), Key(k)) => if k in fields then Some(fields[k]) else None
    case (Array(items), Index(i)) => if i < |items| then Some(items[i]) else None
    case _ => None
  }

  /** The part of `a` that a path leads to. */
  function At(a: Json, path: Path): Option<Json>
    decreases |path|
  {
    if path == [] then Some(a)
    else
      match Child(a, path[0])
      case None => None
      case Some(b) => At(b, path[1..])
  }

  /** `u` is a subset of some part of `a`. */
  ghost predicate OccursIn(u: Json, a: Json) {
    exists path :: OccursAt(u, a, path)
  }

  ghost predicate OccursAt(u: Json, a: Json, path: Path) {
    At(a, path).Some? && Subset(u, At(a, path).value)
  }

  // ---------- mismatch reports ----------

  /** The values differ without looking inside them. */
  predicate HeadsDiffer(actual: Json, expected: Json) {
    match expected
    case Object(_) => !actual.Object?
    case Array(items) => !actual.Array? || |actual.items| != |items|
    case _ => actual != expected
  }

  /** Following the path, both values go together until their heads differ or the actual
      object lacks the last key. */
  predicate Refutes(actual: Json, expected: Json, path: Path)
    decreases |path|
  {
    if path == [] then HeadsDiffer(actual, expected)
    else
      && Child(expected, path[0]).Some?
      && !HeadsDiffer(actual, expected)
      && match Child(actual, path[0])
         case None => |path| == 1
         case Some(a) => Refutes(a, Child(expected, path[0]).value, path[1..])
  }

  /** A reported path proves a mismatch. */
  lemma {:induction false} RefutesIsMismatch(actual: Json, expected: Json, path: Path)
    requires Refutes(actual, expected, path)
    ensures !Subset(expected, actual)
    decreases |path|
  {
    if path != [] && Child(actual, path[0]).Some? {
      RefutesIsMismatch(Child(actual, path[0]).value, Child(expected, path[0]).value, path[1..]);
    }
  }

  // ---------- the code ----------

  /** Keys are visited in no particular order; the error is the path of a mismatch. */
  method MatchJSONSubset(actual: Json, expected: Json, path: Path) returns (err: Option<Path>)
    ensures err.None? <==> Subset(expected, actual)
    ensures err.Some? ==> path <= err.value && Refutes(actual, expected, err.value[|path|..])
    decreases expected
  {
    match expected {
      case Object(fields) =>
        if !actual.Object? {
          return Some(path);
        }
        var todo := fields.Keys;
        while todo != {}
          invariant todo <= fields.Keys
          invariant forall k :: k in fields && k !in todo ==>
                      k in actual.fields && Subset(fields[k], actual.fields[k])
          decreases todo
        {
          var k :| k in todo;
          if k !in actual.fields {
            assert (path + [Key(k)])[|path|..] == [Key(k)];
            return Some(path + [Key(k)]);
          }
          err := MatchJSONSubset(actual.fields[k], fields[k], path + [Key(k)]);
          if err.Some? {
            DeeperReport(actual, expected, path, Key(k), err.value);
            return;
          }
          todo := todo - {k};
        }
        err := None;
      case Array(items) =>
        if !actual.Array? {
          return Some(path);
        }
        if |actual.items| != |items| {
          return Some(path);
        }
        for i := 0 to |items|
          invariant forall j :: 0 <= j < i ==> Subset(items[j], actual.items[j])
        {
          err := MatchJSONSubset(actual.items[i], items[i], path + [Index(i)]);
          if err.Some? {
            DeeperReport(actual, expected, path, Index(i), err.value);
            return;
          }
        }
        err := None;
      case _ =>
        err := if actual != expected then Some(path) else None;
    }
  }

  lemma DeeperReport(actual: Json, expected: Json, path: Path, s: Step, full: Path)
    requires !HeadsDiffer(actual, expected) && Child(actual, s).Some? && Child(expected, s).Some?
    requires path + [s] <= full
    requires Refutes(Child(actual, s).value, Child(expected, s).value, full[|path| + 1..])
    ensures path <= full && Refutes(actual, expected, full[|path|..])
    ensures !Subset(expected, actual)
  {
    var rel := full[|path|..];
    assert rel[0] == (path + [s])[|path|] == s;
    assert rel[1..] == full[|path| + 1..];
    RefutesIsMismatch(actual, expected, rel);
  }

  method ContainsJSONSubset(actual: Json, unexpected: Json) returns (r: bool)
    ensures r <==> OccursIn(unexpected, actual)
    decreases actual
  {
    var err := MatchJSONSubset(actual, unexpected, []);
    if err.None? {
      assert OccursAt(unexpected, actual, []);
      return true;
    }
    match actual {
      case Object(fields) =>
        var todo := fields.Keys;
        while todo != {}
          invariant todo <= fields.Keys
          invariant forall k :: k in fields && k !in todo ==> !OccursIn(unexpected, fields[k])
          decreases todo
        {
          var k :| k in todo;
          var inside := ContainsJSONSubset(fields[k], unexpected);
          if inside {
            OccursInChild(unexpected, actual, Key(k));
            return true;
          }
          todo := todo - {k};
        }
      case Array(items) =>
        for i := 0 to |items|
          invariant forall j :: 0 <= j < i ==> !OccursIn(unexpected, items[j])
        {
          var inside := ContainsJSONSubset(items[i], unexpected);
          if inside {
            OccursInChild(unexpected, actual, Index(i));
            return true;
          }
        }
      case _ =>
    }
    OccursHereOrInChild(unexpected, actual);
    r := false;
  }

  lemma OccursInChild(u: Json, a: Json, s: Step)
    requires Child(a, s).Some? && OccursIn(u, Child(a, s).value)
    ensures OccursIn(u, a)
  {
    var path :| OccursAt(u, Child(a, s).value, path);
    assert ([s] + path)[1..] == path;
    assert OccursAt(u, a, [s] + path);
  }

  lemma OccursHereOrInChild(u: Json, a: Json)
    ensures OccursIn(u, a) ==>
              Subset(u, a) || exists s :: Child(a, s).Some? && OccursIn(u, Child(a, s).value)
  {
    if OccursIn(u, a) && !Subset(u, a) {
      var path :| OccursAt(u, a, path);
      assert OccursAt(u, Child(a, path[0]).value, path[1..]);
    }
  }

  // ---------- subset is a partial order ----------

  lemma {:induction false} SubsetReflexive(a: Json)
    ensures Subset(a, a)
    decreases a
  {
    match a {
      case Object(fields) =>
        forall k | k in fields ensures Subset(fields[k], fields[k]) {
          SubsetReflexive(fields[k]);
        }
      case Array(items) =>
        forall i | 0 <= i < |items| ensures Subset(items[i], items[i]) {
          SubsetReflexive(items[i]);
        }
      case _ =>
    }
  }

  lemma {:induction false} SubsetTransitive(a: Json, b: Json, c: Json)
    requires Subset(a, b) && Subset(b, c)
    ensures Subset(a, c)
    decreases a
  {
    match a {
      case Object(fields) =>
        forall k | k in fields ensures k in c.fields && Subset(fields[k], c.fields[k]) {
          SubsetTransitive(fields[k], b.fields[k], c.fields[k]);
        }
      case Array(items) =>
        forall i | 0 <= i < |items| ensures Subset(items[i], c.items[i]) {
          SubsetTransitive(items[i], b.items[i], c.items[i]);
        }
      case _ =>
    }
  }

  lemma {:induction false} SubsetAntisymmetric(a: Json, b: Json)
    requires Subset(a, b) && Subset(b, a)
    ensures a == b
    decreases a
  {
    match a {
      case Object(fields) =>
        assert fields.Keys == b.fields.Keys;
        forall k | k in fields ensures fields[k] == b.fields[k] {
          SubsetAntisymmetric(fields[k], b.fields[k]);
        }
        assert fields == b.fields;
      case Array(items) =>
        forall i | 0 <= i < |items| ensures items[i] == b.items[i] {
          SubsetAntisymmetric(items[i], b.items[i]);
        }
        assert items == b.items;
      case _ =>
    }
  }

  // ---------- subset and parts ----------

  /** A part of the smaller value has a counterpart at the same path of the larger. */
  lemma {:induction false} PartsCorrespond(small: Json, big: Json, path: Path)
    requires Subset(small, big) && At(small, path).Some?
    ensures At(big, path).Some? && Subset(At(small, path).value, At(big, path).value)
    decreases |path|
  {
    if path != [] {
      PartsCorrespond(Child(small, path[0]).value, Child(big, path[0]).value, path[1..]);
    }
  }

  /** Two values go together as far as can be seen without looking inside. */
  predicate SameHead(a: Json, b: Json) {
    if a.Object? then b.Object?
    else if a.Array? then b.Array? && |a.items| == |b.items|
    else a == b
  }

  ghost predicate GoesTogether(small: Json, big: Json, path: Path) {
    At(small, path).Some? ==> At(big, path).Some? && SameHead(At(small, path).value, At(big, path).value)
  }

  /** Without recursion: a subset is what has, at every path that leads anywhere in it, a
      counterpart of the same kind, length or value. */
  lemma {:induction false} SubsetIffEveryPath(small: Json, big: Json)
    ensures Subset(small, big) <==> forall path: Path :: GoesTogether(small, big, path)
    decreases small
  {
    if Subset(small, big) {
      forall path: Path ensures GoesTogether(small, big, path) {
        if At(small, path).Some? {
          PartsCorrespond(small, big, path);
        }
      }
    }
    if forall path: Path :: GoesTogether(small, big, path) {
      assert GoesTogether(small, big, []);
      match small {
        case Object(fields) =>
          forall k | k in fields ensures k in big.fields && Subset(fields[k], big.fields[k]) {
            PathsThrough(small, big, Key(k));
            SubsetIffEveryPath(fields[k], big.fields[k]);
          }
        case Array(items) =>
          forall i | 0 <= i < |items| ensures Subset(items[i], big.items[i]) {
            PathsThrough(small, big, Index(i));
            SubsetIffEveryPath(items[i], big.items[i]);
          }
        case _ =>
      }
    }
  }

  lemma PathsThrough(small: Json, big: Json, s: Step)
    requires forall path: Path :: GoesTogether(small, big, path)
    requires Child(small, s).Some?
    ensures Child(big, s).Some?
    ensures forall path: Path :: GoesTogether(Child(small, s).value, Child(big, s).value, path)
  {
    assert GoesTogether(small, big, [s]);
    assert At(small, [s]).Some?;
    forall path: Path ensures GoesTogether(Child(small, s).value, Child(big, s).value, path) {
      assert ([s] + path)[1..] == path;
      assert GoesTogether(small, big, [s] + path);
    }
  }

  /** Every field of an object and every item of an array is a part. */
  lemma PartsOccur(fields: map<string, Json>, k: string, items: seq<Json>, i: nat)
    ensures k in fields ==> OccursIn(fields[k], Object(fields))
    ensures i < |items| ==> OccursIn(items[i], Array(items))
  {
    if k in fields {
      OccursReflexive(fields[k]);
      OccursInChild(fields[k], Object(fields), Key(k));
    }
    if i < |items| {
      OccursReflexive(items[i]);
      OccursInChild(items[i], Array(items), Index(i));
    }
  }

  lemma {:induction false} AtConcat(a: Json, p: Path, q: Path)
    requires At(a, p).Some?
    ensures At(a, p + q) == At(At(a, p).value, q)
    decreases |p|
  {
    if p == [] {
      assert p + q == q;
    } else {
      assert (p + q)[1..] == p[1..] + q;
      AtConcat(Child(a, p[0]).value, p[1..], q);
    }
  }

  // ---------- occurring somewhere is a partial order too ----------

  /** A measure that parts strictly lower and subsets do not raise. */
  ghost function Depth(a: Json): nat
    decreases a
  {
    match a
    case Object(fields) => 1 + Max(set k | k in fields :: Depth(fields[k]))
    case Array(items) => 1 + Max(set i | 0 <= i < |items| :: Depth(items[i]))
    case _ => 0
  }

  ghost function Max(s: set<nat>): (m: nat)
    ensures forall x :: x in s ==> x <= m
    ensures s != {} ==> m in s
    ensures s == {} ==> m == 0
    decreases |s|
  {
    if s == {} then 0
    else
      var x :| x in s;
      var rest := Max(s - {x});
      assert forall y :: y in s ==> y == x || y in s - {x};
      if x >= rest then x else rest
  }

  lemma ChildIsShallower(a: Json, s: Step)
    requires Child(a, s).Some?
    ensures Depth(Child(a, s).value) < Depth(a)
  {
    match a {
      case Object(fields) =>
        var depths := set k | k in fields :: Depth(fields[k]);
        assert Depth(fields[s.k]) in depths && Depth(a) == 1 + Max(depths);
      case Array(items) =>
        var depths := set i | 0 <= i < |items| :: Depth(items[i]);
        assert Depth(items[s.i]) in depths && Depth(a) == 1 + Max(depths);
    }
  }

  lemma {:induction false} PartIsShallower(a: Json, path: Path)
    requires At(a, path).Some?
    ensures Depth(At(a, path).value) <= Depth(a)
    ensures path != [] ==> Depth(At(a, path).value) < Depth(a)
    decreases |path|
  {
    if path != [] {
      ChildIsShallower(a, path[0]);
      PartIsShallower(Child(a, path[0]).value, path[1..]);
    }
  }

  lemma {:induction false} SubsetIsShallower(small: Json, big: Json)
    requires Subset(small, big)
    ensures Depth(small) <= Depth(big)
    decreases small
  {
    match small {
      case Object(fields) =>
        forall k | k in fields ensures Depth(fields[k]) < Depth(big) {
          SubsetIsShallower(fields[k], big.fields[k]);
          ChildIsShallower(big, Key(k));
        }
        var depths := set k | k in fields :: Depth(fields[k]);
        assert forall x :: x in depths ==> x < Depth(big);
      case Array(items) =>
        forall i | 0 <= i < |items| ensures Depth(items[i]) < Depth(big) {
          SubsetIsShallower(items[i], big.items[i]);
          ChildIsShallower(big, Index(i));
        }
        var depths := set i | 0 <= i < |items| :: Depth(items[i]);
        assert forall x :: x in depths ==> x < Depth(big);
      case _ =>
    }
  }

  lemma OccursReflexive(a: Json)
    ensures OccursIn(a, a)
  {
    SubsetReflexive(a);
    assert OccursAt(a, a, []);
  }

  lemma OccursTransitive(a: Json, b: Json, c: Json)
    requires OccursIn(a, b) && OccursIn(b, c)
    ensures OccursIn(a, c)
  {
    var p :| OccursAt(a, b, p);
    var q :| OccursAt(b, c, q);
    PartsCorrespond(b, At(c, q).value, p);
    SubsetTransitive(a, At(b, p).value, At(At(c, q).value, p).value);
    AtConcat(c, q, p);
    assert OccursAt(a, c, q + p);
  }

  /** Two values that occur in each other are equal: neither can sit properly inside. */
  lemma OccursAntisymmetric(a: Json, b: Json)
    requires OccursIn(a, b) && OccursIn(b, a)
    ensures a == b
  {
    var p :| OccursAt(a, b, p);
    var q :| OccursAt(b, a, q);
    SubsetIsShallower(a, At(b, p).value);
    SubsetIsShallower(b, At(a, q).value);
    PartIsShallower(b, p);
    PartIsShallower(a, q);
    assert p == [] && q == [];
    SubsetAntisymmetric(a, b);
  }

  /** Making a response larger, or an unexpected value smaller, can only add occurrences. */
  lemma OccursMonotone(u: Json, v: Json, a: Json, b: Json)
    requires Subset(u, v) && Subset(a, b) && OccursIn(v, a)
    ensures OccursIn(u, b)
  {
    assert At(v, []) == Some(v) && At(b, []) == Some(b);
    assert OccursAt(u, v, []) && OccursAt(a, b, []);
    OccursTransitive(u, v, a);
    OccursTransitive(u, a, b);
  }
}
