/**
 The human-readable form of the condition map that is written out as JSON:
 every id, as a key and inside the two sets, is replaced by its display
 text. The map is collected from the entries of the condition map in the
 map's iteration order, a later entry for the same text replacing an
 earlier one; the iteration order is a parameter.
 */
module ReadableConditions {
  import opened Wrappers
  import opened Supercluster
  import opened DependencyViews
  import opened UnlockingConditions

  /** An unlocking condition with every id written as text. */
  datatype ReadableCondition = ReadableCondition(allOf: set<string>, oneOf: set<string>)

  /** Distinct ids are displayed differently. */
  ghost predicate Injective(show: NodeID -> string) {
    forall a, b :: show(a) == show(b) ==> a == b
  }

  /** The display texts of a set of ids. */
  function ShowAll(ids: set<NodeID>, show: NodeID -> string): set<string> {
    set m | m in ids :: show(m)
  }

  /** With an injective display, an id's text is shown iff the id is in the set. */
  lemma ShowAllExact(ids: set<NodeID>, show: NodeID -> string, m: NodeID)
    requires Injective(show)
    ensures show(m) in ShowAll(ids, show) <==> m in ids
  {
    if show(m) in ShowAll(ids, show) {
      var x :| x in ids && show(x) == show(m);
    }
  }

  /** The readable form of one map value: `None` stays `None`, a condition
      has both of its sets displayed. */
  function ReadableOf(c: Option<UnlockingCondition>, show: NodeID -> string): (r: Option<ReadableCondition>)
    ensures r.None? <==> c.None?
  {
    match c
    case None => None
    case Some(uc) => Some(ReadableCondition(ShowAll(uc.allOf, show), ShowAll(uc.oneOf, show)))
  }

  /** The readable map collected from `entries` in order; a later entry with
      the same key text overwrites an earlier one. Each key carries the
      readable value of the last entry whose id is displayed as that key. */
  function Readable(entries: seq<(NodeID, Option<UnlockingCondition>)>, show: NodeID -> string): (r: map<string, Option<ReadableCondition>>)
    ensures forall s :: s in r ==> exists i :: 0 <= i < |entries| && show(entries[i].0) == s && r[s] == ReadableOf(entries[i].1, show)
                                              && forall j :: i < j < |entries| ==> show(entries[j].0) != s
    decreases |entries|
  {
    if entries == [] then map[]
    else
      var last := entries[|entries| - 1];
      var prefix := entries[..|entries| - 1];
      var before := Readable(prefix, show);
      assert forall i :: 0 <= i < |prefix| ==> prefix[i] == entries[i];
      before[show(last.0) := ReadableOf(last.1, show)]
  }

  /** The keys of the readable map are the display texts of the entries' ids. */
  lemma {:induction false} ReadableKeys(entries: seq<(NodeID, Option<UnlockingCondition>)>, show: NodeID -> string, s: string)
    ensures s in Readable(entries, show) <==> exists i :: 0 <= i < |entries| && show(entries[i].0) == s
    decreases |entries|
  {
    if entries != [] {
      var prefix := entries[..|entries| - 1];
      ReadableKeys(prefix, show, s);
      if exists i :: 0 <= i < |prefix| && show(prefix[i].0) == s {
        var i :| 0 <= i < |prefix| && show(prefix[i].0) == s;
        assert entries[i] == prefix[i];
      }
      if exists i :: 0 <= i < |entries| && show(entries[i].0) == s {
        var i :| 0 <= i < |entries| && show(entries[i].0) == s;
        if i < |prefix| {
          assert prefix[i] == entries[i];
        }
      }
    }
  }

  /** With an injective display, the text of an id that the entries list,
      always with value `v`, maps to the readable form of `v`. */
  lemma {:induction false} ReadableValue(entries: seq<(NodeID, Option<UnlockingCondition>)>, show: NodeID -> string,
                                         k: NodeID, v: Option<UnlockingCondition>)
    requires Injective(show)
    requires exists i :: 0 <= i < |entries| && entries[i].0 == k
    requires forall i :: 0 <= i < |entries| && entries[i].0 == k ==> entries[i].1 == v
    ensures show(k) in Readable(entries, show) && Readable(entries, show)[show(k)] == ReadableOf(v, show)
    decreases |entries|
  {
    var last := entries[|entries| - 1];
    var prefix := entries[..|entries| - 1];
    if last.0 != k {
      var i :| 0 <= i < |entries| && entries[i].0 == k;
      assert prefix[i] == entries[i];
      forall j | 0 <= j < |prefix| && prefix[j].0 == k
        ensures prefix[j].1 == v
      {
        assert prefix[j] == entries[j];
      }
      ReadableValue(prefix, show, k, v);
      assert show(last.0) != show(k);
    }
  }

  /** `entries` lists the entries of `cm`: each of its pairs is an entry of
      `cm`, and each key of `cm` is listed. */
  ghost predicate Enumerates(entries: seq<(NodeID, Option<UnlockingCondition>)>, cm: ConditionMap) {
    && (forall i :: 0 <= i < |entries| ==> entries[i].0 in cm && entries[i].1 == cm[entries[i].0])
    && (forall k :: k in cm ==> exists i :: 0 <= i < |entries| && entries[i].0 == k)
  }

  /** Read from an enumeration of a condition map, the readable map has the
      display texts of the map's keys as its keys, and with an injective
      display each key's text carries the readable form of that key's value. */
  lemma ReadableMap(entries: seq<(NodeID, Option<UnlockingCondition>)>, cm: ConditionMap, show: NodeID -> string, k: NodeID)
    requires Enumerates(entries, cm)
    requires Injective(show)
    ensures show(k) in Readable(entries, show) <==> k in cm
    ensures k in cm ==> Readable(entries, show)[show(k)] == ReadableOf(cm[k], show)
  {
    ReadableKeys(entries, show, show(k));
    if k in cm {
      ReadableValue(entries, show, k, cm[k]);
    }
  }

  /** The JSON value of a node, read back: a root's text carries `null`;
      any other node's text carries the texts of exactly its hard
      prerequisites and of exactly its motivators. */
  lemma ReadableConditionExact(sc: RootedSupercluster, entries: seq<(NodeID, Option<UnlockingCondition>)>,
                               show: NodeID -> string, n: NodeID, m: NodeID)
    requires Compile(sc).Success? && Enumerates(entries, Compile(sc).value)
    requires Injective(show)
    requires n in NodeIds(sc.graph)
    ensures show(n) in Readable(entries, show)
    ensures Readable(entries, show)[show(n)].None? <==> n in sc.roots
    ensures n !in sc.roots ==>
      && (show(m) in Readable(entries, show)[show(n)].value.allOf <==> HardDependency(sc.graph, m, n))
      && (show(m) in Readable(entries, show)[show(n)].value.oneOf <==>
            exists t :: Motivates(sc.graph, m, t) && Downstream(sc.graph, n, t))
  {
    CompileTotal(sc);
    ReadableMap(entries, Compile(sc).value, show, n);
    if n !in sc.roots {
      var c := ConditionOf(sc, n).value;
      ShowAllExact(c.allOf, show, m);
      ShowAllExact(c.oneOf, show, m);
      AllOfExact(sc, n, m);
      OneOfExact(sc, n, m);
    }
  }
}
