/** The JSON form of saved model state (Raspberry.Pi/pendulum_pi/analysis.py, pack and unpack). */
module SavedState {
  import opened Words

  datatype Scalar = Null | Number(n: int) | Words(s: string)

  datatype Entry = Entry(key: string, value: Value)

  /** A Python value tree. A dict keeps its entries in insertion order. */
  datatype Value =
    | Leaf(scalar: Scalar)
    | List(items: seq<Value>)
    | Tuple(items: seq<Value>)
    | Deque(items: seq<Value>, maxlen: Option<nat>)
    | Dict(entries: seq<Entry>)

  function MaxlenScalar(maxlen: Option<nat>): Scalar {
    if maxlen.None? then Null else Number(maxlen.value)
  }

  function Pack(v: Value): (p: Value)
    decreases v
  {
    match v
    case Leaf(_) => v
    case List(items) => List(PackAll(items))
    case Tuple(items) => Dict([Entry("tuple", List(PackAll(items)))])
    case Deque(items, maxlen) =>
      Dict([Entry("deque", List(PackAll(items))), Entry("maxlen", Leaf(MaxlenScalar(maxlen)))])
    case Dict(entries) => Dict(PackEntries(entries))
  }

  function PackAll(items: seq<Value>): (ps: seq<Value>)
    ensures |ps| == |items|
    decreases items
  {
    if |items| == 0 then [] else [Pack(items[0])] + PackAll(items[1..])
  }

  function PackEntries(entries: seq<Entry>): (ps: seq<Entry>)
    ensures |ps| == |entries| && forall i :: 0 <= i < |ps| ==> ps[i].key == entries[i].key
    decreases entries
  {
    if |entries| == 0 then [] else [Entry(entries[0].key, Pack(entries[0].value))] + PackEntries(entries[1..])
  }

  function Keys(entries: seq<Entry>): set<string> {
    set i | 0 <= i < |entries| :: entries[i].key
  }

  function Get(entries: seq<Entry>, key: string): (v: Option<Value>)
    ensures v.Some? ==> exists i :: 0 <= i < |entries| && entries[i].key == key && v.value == entries[i].value
  {
    if |entries| == 0 then None
    else if entries[0].key == key then Some(entries[0].value)
    else Get(entries[1..], key)
  }

  /** `deque(items, maxlen=n)` keeps the last n. */
  function MakeDeque(items: seq<Value>, maxlen: Option<nat>): Value {
    if maxlen.Some? && |items| > maxlen.value then Deque(items[|items| - maxlen.value..], maxlen)
    else Deque(items, maxlen)
  }

  /** None where the original raises, or iterates over something that is not a list. */
  function Unpack(p: Value): Option<Value>
    decreases p
  {
    match p
    case Leaf(_) => Some(p)
    case List(items) =>
      var us := UnpackAll(items);
      if us.None? then None else Some(List(us.value))
    case Tuple(_) => Some(p)
    case Deque(_, _) => Some(p)
    case Dict(entries) =>
      if Keys(entries) == {"deque", "maxlen"} then
        var packed, maxlen := Get(entries, "deque"), Get(entries, "maxlen");
        if packed.None? || !packed.value.List? || maxlen.None? || !maxlen.value.Leaf? then None
        else
          var us := UnpackAll(packed.value.items);
          if us.None? then None
          else
            match maxlen.value.scalar
            case Null => Some(MakeDeque(us.value, None))
            case Number(n) => if n < 0 then None else Some(MakeDeque(us.value, Some(n)))
            case Words(_) => None
      else if Keys(entries) == {"tuple"} then
        var packed := Get(entries, "tuple");
        if packed.None? || !packed.value.List? then None
        else
          var us := UnpackAll(packed.value.items);
          if us.None? then None else Some(Tuple(us.value))
      else
        var us := UnpackEntries(entries);
        if us.None? then None else Some(Dict(us.value))
  }

  function UnpackAll(ps: seq<Value>): (us: Option<seq<Value>>)
    ensures us.Some? ==> |us.value| == |ps|
    decreases ps
  {
    if |ps| == 0 then Some([])
    else
      var first, rest := Unpack(ps[0]), UnpackAll(ps[1..]);
      if first.None? || rest.None? then None else Some([first.value] + rest.value)
  }

  function UnpackEntries(ps: seq<Entry>): (us: Option<seq<Entry>>)
    ensures us.Some? ==> |us.value| == |ps|
    decreases ps
  {
    if |ps| == 0 then Some([])
    else
      var first, rest := Unpack(ps[0].value), UnpackEntries(ps[1..]);
      if first.None? || rest.None? then None else Some([Entry(ps[0].key, first.value)] + rest.value)
  }

  /** What Python guarantees: dict keys are distinct and a deque holds at most maxlen items. */
  predicate WellFormed(v: Value)
    decreases v
  {
    match v
    case Leaf(_) => true
    case List(items) => forall i :: 0 <= i < |items| ==> WellFormed(items[i])
    case Tuple(items) => forall i :: 0 <= i < |items| ==> WellFormed(items[i])
    case Deque(items, maxlen) =>
      && (maxlen.Some? ==> |items| <= maxlen.value)
      && forall i :: 0 <= i < |items| ==> WellFormed(items[i])
    case Dict(entries) =>
      && (forall i, j :: 0 <= i < j < |entries| ==> entries[i].key != entries[j].key)
      && forall i :: 0 <= i < |entries| ==> WellFormed(entries[i].value)
  }

  predicate Reserved(entries: seq<Entry>) {
    Keys(entries) == {"deque", "maxlen"} || Keys(entries) == {"tuple"}
  }

  /** No dict in the tree has exactly the keys that mark a packed deque or tuple. */
  predicate Unambiguous(v: Value)
    decreases v
  {
    match v
    case Leaf(_) => true
    case List(items) => AllUnambiguous(items)
    case Tuple(items) => AllUnambiguous(items)
    case Deque(items, _) => AllUnambiguous(items)
    case Dict(entries) => !Reserved(entries) && EntriesUnambiguous(entries)
  }

  predicate EntriesUnambiguous(entries: seq<Entry>)
    decreases entries
  {
    forall i :: 0 <= i < |entries| ==> Unambiguous(entries[i].value)
  }

  predicate AllUnambiguous(items: seq<Value>)
    decreases items
  {
    forall i :: 0 <= i < |items| ==> Unambiguous(items[i])
  }

  lemma PackedKeys(entries: seq<Entry>)
    ensures Keys(PackEntries(entries)) == Keys(entries)
  {
    var ps := PackEntries(entries);
    forall k | k in Keys(entries)
      ensures k in Keys(ps)
    {
      var i :| 0 <= i < |entries| && entries[i].key == k;
      assert ps[i].key == k;
    }
    forall k | k in Keys(ps)
      ensures k in Keys(entries)
    {
      var i :| 0 <= i < |ps| && ps[i].key == k;
      assert entries[i].key == k;
    }
  }

  lemma TupleKeys(a: Value)
    ensures Keys([Entry("tuple", a)]) == {"tuple"} && "tuple" != "deque"
    ensures {"tuple"} != {"deque", "maxlen"}
  {
    var es := [Entry("tuple", a)];
    assert es[0].key == "tuple" && "tuple" in Keys(es);
    assert |"tuple"| == 5 && |"deque"| == 5 && "tuple"[0] != "deque"[0];
    assert "deque" in {"deque", "maxlen"} && "deque" !in {"tuple"};
  }

  lemma DequeKeys(a: Value, b: Value)
    ensures Keys([Entry("deque", a), Entry("maxlen", b)]) == {"deque", "maxlen"}
    ensures Get([Entry("deque", a), Entry("maxlen", b)], "maxlen") == Some(b)
  {
    var es := [Entry("deque", a), Entry("maxlen", b)];
    assert es[0].key == "deque" && es[1].key == "maxlen";
    assert "deque" in Keys(es) && "maxlen" in Keys(es);
    assert es[1..] == [Entry("maxlen", b)];
    assert |"deque"| != |"maxlen"|;
  }

  /** Saved state comes back exactly when the tree is unambiguous: a dict whose keys are just
      {deque, maxlen} or just {tuple} does not survive, anything else does. */
  lemma {:induction false} PackRoundTrip(v: Value)
    requires WellFormed(v)
    ensures Unpack(Pack(v)) == Some(v) <==> Unambiguous(v)
    decreases v
  {
    hide Pack, Unpack, Keys, Get, UnpackAll, PackAll, UnpackEntries, PackEntries, Reserved;
    match v
    case Leaf(_) =>
      LeafUnpacks(v);
    case List(items) =>
      AllRoundTrip(items);
      ListUnpacks(items);
    case Tuple(items) =>
      AllRoundTrip(items);
      TupleUnpacks(items);
    case Deque(items, maxlen) =>
      AllRoundTrip(items);
      DequeUnpacks(items, maxlen);
    case Dict(entries) =>
      EntriesRoundTrip(entries);
      DictUnpacks(entries);
  }

  lemma LeafUnpacks(v: Value)
    requires v.Leaf?
    ensures Unpack(Pack(v)) == Some(v)
  {
  }

  lemma ListUnpacks(items: seq<Value>)
    ensures var us := UnpackAll(PackAll(items));
      Unpack(Pack(List(items))) == if us.None? then None else Some(List(us.value))
  {
    hide UnpackAll, PackAll;
  }

  lemma TupleUnpacks(items: seq<Value>)
    ensures var us := UnpackAll(PackAll(items));
      Unpack(Pack(Tuple(items))) == if us.None? then None else Some(Tuple(us.value))
  {
    hide UnpackAll, PackAll, Keys;
    TupleKeys(List(PackAll(items)));
  }

  lemma DequeUnpacks(items: seq<Value>, maxlen: Option<nat>)
    ensures var us := UnpackAll(PackAll(items));
      Unpack(Pack(Deque(items, maxlen))) == if us.None? then None else Some(MakeDeque(us.value, maxlen))
  {
    hide UnpackAll, PackAll, Keys, MakeDeque;
    DequeKeys(List(PackAll(items)), Leaf(MaxlenScalar(maxlen)));
  }

  lemma DictUnpacks(entries: seq<Entry>)
    ensures var us := UnpackEntries(PackEntries(entries));
      !Reserved(entries) ==> Unpack(Pack(Dict(entries))) == if us.None? then None else Some(Dict(us.value))
    ensures Reserved(entries) ==> Unpack(Pack(Dict(entries))) != Some(Dict(entries))
  {
    hide UnpackAll, PackEntries, UnpackEntries, Keys, Get;
    PackedKeys(entries);
  }

  lemma {:induction false} AllRoundTrip(items: seq<Value>)
    requires forall i :: 0 <= i < |items| ==> WellFormed(items[i])
    ensures UnpackAll(PackAll(items)) == Some(items) <==> AllUnambiguous(items)
    decreases items
  {
    hide Pack, Unpack, WellFormed, Unambiguous;
    if |items| > 0 {
      PackRoundTrip(items[0]);
      AllRoundTrip(items[1..]);
      assert items == [items[0]] + items[1..];
      assert AllUnambiguous(items) <==> Unambiguous(items[0]) && AllUnambiguous(items[1..]);
    }
  }

  lemma {:induction false} EntriesRoundTrip(entries: seq<Entry>)
    requires forall i :: 0 <= i < |entries| ==> WellFormed(entries[i].value)
    ensures UnpackEntries(PackEntries(entries)) == Some(entries) <==> EntriesUnambiguous(entries)
    decreases entries
  {
    hide Pack, Unpack, WellFormed, Unambiguous, EntriesUnambiguous;
    EntriesStep(entries);
    if |entries| > 0 {
      PackRoundTrip(entries[0].value);
      EntriesRoundTrip(entries[1..]);
      assert entries == [Entry(entries[0].key, entries[0].value)] + entries[1..];
    }
  }

  lemma EntriesStep(entries: seq<Entry>)
    ensures EntriesUnambiguous(entries) <==>
            |entries| == 0 || (Unambiguous(entries[0].value) && EntriesUnambiguous(entries[1..]))
  {
    hide Unambiguous;
    if |entries| > 0 {
      assert entries == [entries[0]] + entries[1..];
    }
  }
}
