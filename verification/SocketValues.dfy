/** Binary attachments of Socket.IO (x/socketio/packet.go). */
module SocketValues {
  // Byte slices inside a nested value are replaced by numbered placeholders and put back later. Go
  // iterates maps in any order, so the order is a parameter: it may depend on the map and on how
  // many buffers were collected before.

  type Bytes = seq<int>

  datatype Value =
    | Null
    | Bool(b: bool)
    | Num(x: real)
    | Str(s: string)
    | Binary(data: Bytes)
    | Arr(items: seq<Value>)
    | Obj(fields: map<string, Value>)

  type Order = (nat, map<string, Value>) -> seq<string>

  ghost predicate Distinct(keys: seq<string>) {
    forall i, j | 0 <= i < j < |keys| :: keys[i] != keys[j]
  }

  /** Every iteration visits every key once. */
  ghost predicate Enumerates(order: Order) {
    forall n: nat, m: map<string, Value> ::
      Distinct(order(n, m)) && forall k :: k in order(n, m) <==> k in m
  }

  // ----- the operations -----

  predicate HasBinary(v: Value) {
    match v
    case Binary(_) => true
    case Arr(items) => exists i | 0 <= i < |items| :: HasBinary(items[i])
    case Obj(fields) => exists k | k in fields :: HasBinary(fields[k])
    case _ => false
  }

  function Placeholder(n: nat): Value {
    Obj(map["_placeholder" := Bool(true), "num" := Num(n as real)])
  }

  datatype Taken = Taken(value: Value, buffers: seq<Bytes>)

  /** deconstructBinaryWithOffset: buffers are collected in the order of the traversal. */
  function Deconstruct(v: Value, buffers: seq<Bytes>, order: Order): Taken
    decreases v, 1, 0
  {
    match v
    case Binary(data) => Taken(Placeholder(|buffers|), buffers + [data])
    case Arr(items) => TakeItems(v, |items|, buffers, order)
    case Obj(fields) => TakeFields(v, order(|buffers|, fields), buffers, order)
    case _ => Taken(v, buffers)
  }

  /** The first n items. */
  function TakeItems(v: Value, n: nat, buffers: seq<Bytes>, order: Order): (t: Taken)
    requires v.Arr? && n <= |v.items|
    ensures t.value.Arr? && |t.value.items| == n
    decreases v, 0, n
  {
    if n == 0 then Taken(Arr([]), buffers) else
      var before := TakeItems(v, n - 1, buffers, order);
      var t := Deconstruct(v.items[n - 1], before.buffers, order);
      Taken(Arr(before.value.items + [t.value]), t.buffers)
  }

  /** The fields named by keys, which is as far as the iteration got. */
  function TakeFields(v: Value, keys: seq<string>, buffers: seq<Bytes>, order: Order): (t: Taken)
    requires v.Obj?
    ensures t.value.Obj?
    decreases v, 0, |keys|
  {
    if keys == [] then Taken(Obj(map[]), buffers) else
      var k := keys[|keys| - 1];
      var before := TakeFields(v, keys[..|keys| - 1], buffers, order);
      if k !in v.fields then before else
        var t := Deconstruct(v.fields[k], before.buffers, order);
        Taken(Obj(before.value.fields[k := t.value]), t.buffers)
  }

  predicate IsPlaceholder(fields: map<string, Value>) {
    "_placeholder" in fields && fields["_placeholder"] == Bool(true)
  }

  /** int(n) truncates toward zero; anything but a number gives -1. */
  function Index(fields: map<string, Value>): int {
    if "num" in fields && fields["num"].Num? then
      var x := fields["num"].x;
      if x >= 0.0 then x.Floor else -((-x).Floor)
    else -1
  }

  function Reconstruct(v: Value, buffers: seq<Bytes>): Value {
    match v
    case Obj(fields) =>
      if IsPlaceholder(fields) then
        var i := Index(fields);
        if 0 <= i < |buffers| then Binary(buffers[i]) else v
      else Obj(map k | k in fields :: Reconstruct(fields[k], buffers))
    case Arr(items) => Arr(seq(|items|, i requires 0 <= i < |items| => Reconstruct(items[i], buffers)))
    case _ => v
  }

  /** x counts as i: it is at least i and less than the next number, or between -1 and 0 for 0. */
  predicate CountsAs(fields: map<string, Value>, i: nat) {
    "num" in fields && fields["num"].Num?
    && (i as real <= fields["num"].x < (i + 1) as real || (i == 0 && -1.0 < fields["num"].x < 0.0))
  }

  /** A map whose _placeholder is true is replaced by the buffer its num counts as; with any other num,
      or none, it stays. */
  lemma {:induction false} PlaceholderExactly(fields: map<string, Value>, buffers: seq<Bytes>)
    requires "_placeholder" in fields && fields["_placeholder"] == Bool(true)
    ensures forall i | 0 <= i < |buffers| && CountsAs(fields, i) :: Reconstruct(Obj(fields), buffers) == Binary(buffers[i])
    ensures (forall i | 0 <= i < |buffers| :: !CountsAs(fields, i)) ==> Reconstruct(Obj(fields), buffers) == Obj(fields)
  {
    forall i | 0 <= i < |buffers| ensures CountsAs(fields, i) <==> Index(fields) == i { }
    var i := Index(fields);
    if 0 <= i < |buffers| { assert CountsAs(fields, i); }
  }

  // ----- the traversal -----

  /** What an iteration over a map may be. */
  ghost predicate KeysOf(keys: seq<string>, fields: map<string, Value>) {
    Distinct(keys) && forall i | 0 <= i < |keys| :: keys[i] in fields
  }

  lemma {:induction false} Longer(a: seq<Bytes>, b: seq<Bytes>, c: seq<Bytes>)
    requires a <= b && b <= c
    ensures a <= c
  {
  }

  lemma {:induction false} Collects(v: Value, buffers: seq<Bytes>, order: Order)
    ensures buffers <= Deconstruct(v, buffers, order).buffers
    decreases v, 1, 0
  {
    match v
    case Arr(items) => CollectsItems(v, |items|, buffers, order);
    case Obj(fields) => CollectsFields(v, order(|buffers|, fields), buffers, order);
    case _ =>
  }

  lemma {:induction false} CollectsItems(v: Value, n: nat, buffers: seq<Bytes>, order: Order)
    requires v.Arr? && n <= |v.items|
    ensures buffers <= TakeItems(v, n, buffers, order).buffers
    decreases v, 0, n
  {
    if n > 0 {
      CollectsItems(v, n - 1, buffers, order);
      Collects(v.items[n - 1], TakeItems(v, n - 1, buffers, order).buffers, order);
    }
  }

  lemma {:induction false} CollectsFields(v: Value, keys: seq<string>, buffers: seq<Bytes>, order: Order)
    requires v.Obj?
    ensures buffers <= TakeFields(v, keys, buffers, order).buffers
    decreases v, 0, |keys|
  {
    if keys != [] {
      var k, init := keys[|keys| - 1], keys[..|keys| - 1];
      CollectsFields(v, init, buffers, order);
      if k in v.fields { Collects(v.fields[k], TakeFields(v, init, buffers, order).buffers, order); }
    }
  }

  lemma {:induction false} TakenKeys(v: Value, keys: seq<string>, buffers: seq<Bytes>, order: Order)
    requires v.Obj? && KeysOf(keys, v.fields)
    ensures forall k :: k in TakeFields(v, keys, buffers, order).value.fields <==> k in keys
    decreases |keys|
  {
    if keys != [] {
      var init := keys[..|keys| - 1];
      assert keys == init + [keys[|keys| - 1]];
      TakenKeys(v, init, buffers, order);
    }
  }

  // ----- buffers are collected exactly for binary values -----

  /** A value is changed, and a buffer collected, exactly when there is something binary in it. */
  lemma {:induction false} BinaryCounts(v: Value, buffers: seq<Bytes>, order: Order)
    requires Enumerates(order)
    ensures HasBinary(v) <==> |Deconstruct(v, buffers, order).buffers| > |buffers|
    ensures HasBinary(v) <==> Deconstruct(v, buffers, order).value != v
    decreases v, 1, 0
  {
    match v
    case Arr(items) =>
      BinaryCountsItems(v, |items|, buffers, order);
      assert items[..|items|] == items;
    case Obj(fields) =>
      var keys := order(|buffers|, fields);
      BinaryCountsFields(v, keys, buffers, order);
      TakenKeys(v, keys, buffers, order);
      FieldsDecide(fields, keys, TakeFields(v, keys, buffers, order).value.fields);
    case _ =>
  }

  /** From all keys of an iteration to all fields. */
  lemma {:induction false} FieldsDecide(fields: map<string, Value>, keys: seq<string>, taken: map<string, Value>)
    requires (forall k :: k in keys <==> k in fields) && (forall k :: k in taken <==> k in keys)
    requires forall i | 0 <= i < |keys| :: HasBinary(fields[keys[i]]) <==> taken[keys[i]] != fields[keys[i]]
    ensures HasBinary(Obj(fields)) <==> exists i | 0 <= i < |keys| :: HasBinary(fields[keys[i]])
    ensures HasBinary(Obj(fields)) <==> taken != fields
  {
    if k :| k in fields && HasBinary(fields[k]) {
      var i :| 0 <= i < |keys| && keys[i] == k;
      assert HasBinary(fields[keys[i]]);
    } else {
      forall k | k in fields ensures taken[k] == fields[k] {
        assert k in keys;
        var i :| 0 <= i < |keys| && keys[i] == k;
      }
      assert taken == fields;
    }
  }

  lemma {:induction false} BinaryCountsItems(v: Value, n: nat, buffers: seq<Bytes>, order: Order)
    requires Enumerates(order) && v.Arr? && n <= |v.items|
    ensures var t := TakeItems(v, n, buffers, order);
      && ((exists i | 0 <= i < n :: HasBinary(v.items[i])) <==> |t.buffers| > |buffers|)
      && (forall i | 0 <= i < n :: HasBinary(v.items[i]) <==> t.value.items[i] != v.items[i])
    decreases v, 0, n
  {
    if n > 0 {
      var before := TakeItems(v, n - 1, buffers, order);
      BinaryCountsItems(v, n - 1, buffers, order);
      BinaryCounts(v.items[n - 1], before.buffers, order);
      CollectsItems(v, n - 1, buffers, order);
      Collects(v.items[n - 1], before.buffers, order);
    }
  }

  lemma {:induction false} BinaryCountsFields(v: Value, keys: seq<string>, buffers: seq<Bytes>, order: Order)
    requires Enumerates(order) && v.Obj? && KeysOf(keys, v.fields)
    ensures var t := TakeFields(v, keys, buffers, order);
      && ((exists i | 0 <= i < |keys| :: HasBinary(v.fields[keys[i]])) <==> |t.buffers| > |buffers|)
      && (forall i | 0 <= i < |keys| :: keys[i] in t.value.fields && (HasBinary(v.fields[keys[i]]) <==> t.value.fields[keys[i]] != v.fields[keys[i]]))
    decreases v, 0, |keys|
  {
    if keys != [] {
      var k, init := keys[|keys| - 1], keys[..|keys| - 1];
      var before := TakeFields(v, init, buffers, order);
      BinaryCountsFields(v, init, buffers, order);
      BinaryCounts(v.fields[k], before.buffers, order);
      CollectsFields(v, init, buffers, order);
      Collects(v.fields[k], before.buffers, order);
      forall i | 0 <= i < |keys| - 1 ensures keys[i] == init[i] && keys[i] != k { }
    }
  }

  // ----- putting the buffers back -----

  /** With n buffers in all, no placeholder-shaped map of the user's is mistaken for one of ours:
      its number is out of range, and nothing in it needed a placeholder. */
  predicate Kept(v: Value, n: nat) {
    match v
    case Arr(items) => forall i | 0 <= i < |items| :: Kept(items[i], n)
    case Obj(fields) =>
      if IsPlaceholder(fields) then !(0 <= Index(fields) < n) && !HasBinary(v)
      else forall k | k in fields :: Kept(fields[k], n)
    case _ => true
  }

  /** Scalars are left alone, so a map stays or does not become a placeholder, with the same number. */
  lemma {:induction false} SamePlaceholder(v: Value, buffers: seq<Bytes>, order: Order)
    requires Enumerates(order) && v.Obj?
    ensures var fields := Deconstruct(v, buffers, order).value.fields;
      IsPlaceholder(fields) == IsPlaceholder(v.fields) && Index(fields) == Index(v.fields)
  {
    var keys := order(|buffers|, v.fields);
    TakenKeys(v, keys, buffers, order);
    ScalarsStay(v, keys, buffers, order);
    if "_placeholder" in v.fields {
      assert "_placeholder" in keys;
      var i :| 0 <= i < |keys| && keys[i] == "_placeholder";
    }
    if "num" in v.fields {
      assert "num" in keys;
      var i :| 0 <= i < |keys| && keys[i] == "num";
    }
  }

  lemma {:induction false} ScalarsStay(v: Value, keys: seq<string>, buffers: seq<Bytes>, order: Order)
    requires v.Obj? && KeysOf(keys, v.fields)
    ensures var t := TakeFields(v, keys, buffers, order).value.fields;
      forall i | 0 <= i < |keys| :: keys[i] in t &&
        ((v.fields[keys[i]].Bool? || t[keys[i]].Bool? || v.fields[keys[i]].Num? || t[keys[i]].Num?) ==> t[keys[i]] == v.fields[keys[i]])
    decreases |keys|
  {
    if keys != [] {
      var init := keys[..|keys| - 1];
      ScalarsStay(v, init, buffers, order);
      forall i | 0 <= i < |keys| - 1 ensures keys[i] == init[i] && keys[i] != keys[|keys| - 1] { }
    }
  }

  /** Reconstruction undoes deconstruction, for any iteration order and with any further buffers
      behind, exactly when the value holds no placeholder map that could be mistaken. */
  lemma {:induction false} RoundTrip(v: Value, buffers: seq<Bytes>, order: Order, all: seq<Bytes>)
    requires Enumerates(order) && Deconstruct(v, buffers, order).buffers <= all
    ensures Reconstruct(Deconstruct(v, buffers, order).value, all) == v <==> Kept(v, |all|)
    decreases v, 1, 0
  {
    match v
    case Binary(data) => PlaceholderResolves(|buffers|, all);
    case Arr(items) =>
      RoundTripItems(v, |items|, buffers, order, all);
      var w := TakeItems(v, |items|, buffers, order).value;
      assert Reconstruct(w, all) == v <==> forall i | 0 <= i < |items| :: Reconstruct(w.items[i], all) == items[i];
    case Obj(fields) =>
      var keys := order(|buffers|, fields);
      SamePlaceholder(v, buffers, order);
      if IsPlaceholder(fields) {
        BinaryCounts(v, buffers, order);
      } else {
        RoundTripFields(v, keys, buffers, order, all);
        TakenKeys(v, keys, buffers, order);
        AllFieldsReturn(fields, keys, TakeFields(v, keys, buffers, order).value.fields, all);
      }
    case _ =>
  }

  lemma {:induction false} PlaceholderResolves(n: nat, all: seq<Bytes>)
    requires n < |all|
    ensures Reconstruct(Placeholder(n), all) == Binary(all[n])
  {
    var fields := Placeholder(n).fields;
    assert IsPlaceholder(fields) && Index(fields) == n;
  }

  lemma {:induction false} RoundTripItems(v: Value, n: nat, buffers: seq<Bytes>, order: Order, all: seq<Bytes>)
    requires Enumerates(order) && v.Arr? && n <= |v.items| && TakeItems(v, n, buffers, order).buffers <= all
    ensures var w := TakeItems(v, n, buffers, order).value;
      forall i | 0 <= i < n :: Reconstruct(w.items[i], all) == v.items[i] <==> Kept(v.items[i], |all|)
    decreases v, 0, n
  {
    if n > 0 {
      var before := TakeItems(v, n - 1, buffers, order).buffers;
      Collects(v.items[n - 1], before, order);
      Longer(before, TakeItems(v, n, buffers, order).buffers, all);
      RoundTripItems(v, n - 1, buffers, order, all);
      RoundTrip(v.items[n - 1], before, order, all);
    }
  }

  lemma {:induction false} RoundTripFields(v: Value, keys: seq<string>, buffers: seq<Bytes>, order: Order, all: seq<Bytes>)
    requires Enumerates(order) && v.Obj? && KeysOf(keys, v.fields) && TakeFields(v, keys, buffers, order).buffers <= all
    ensures var w := TakeFields(v, keys, buffers, order).value.fields;
      forall i | 0 <= i < |keys| :: keys[i] in w && (Reconstruct(w[keys[i]], all) == v.fields[keys[i]] <==> Kept(v.fields[keys[i]], |all|))
    decreases v, 0, |keys|
  {
    if keys != [] {
      var k, init := keys[|keys| - 1], keys[..|keys| - 1];
      var before := TakeFields(v, init, buffers, order).buffers;
      Collects(v.fields[k], before, order);
      Longer(before, TakeFields(v, keys, buffers, order).buffers, all);
      RoundTripFields(v, init, buffers, order, all);
      RoundTrip(v.fields[k], before, order, all);
      forall i | 0 <= i < |keys| - 1 ensures keys[i] == init[i] && keys[i] != k { }
    }
  }

  lemma {:induction false} AllFieldsReturn(fields: map<string, Value>, keys: seq<string>, taken: map<string, Value>, all: seq<Bytes>)
    requires (forall k :: k in keys <==> k in fields) && (forall k :: k in taken <==> k in keys)
    requires !IsPlaceholder(fields) && !IsPlaceholder(taken)
    requires forall i | 0 <= i < |keys| :: Reconstruct(taken[keys[i]], all) == fields[keys[i]] <==> Kept(fields[keys[i]], |all|)
    ensures Reconstruct(Obj(taken), all) == Obj(fields) <==> Kept(Obj(fields), |all|)
  {
    var r := Reconstruct(Obj(taken), all).fields;
    assert forall k | k in fields :: k in r && r[k] == Reconstruct(taken[k], all);
    forall k | k in fields ensures r[k] == fields[k] <==> Kept(fields[k], |all|) {
      assert k in keys;
      var i :| 0 <= i < |keys| && keys[i] == k;
    }
    if forall k | k in fields :: r[k] == fields[k] { assert r == fields; }
  }

  // A buffer beside a user's placeholder map: only the buffer is collected.
  lemma {:induction false} OneCollected(data: Bytes, order: Order)
    requires Enumerates(order)
    ensures Deconstruct(Arr([Binary(data), Placeholder(0)]), [], order).buffers == [data]
  {
    var v := Arr([Binary(data), Placeholder(0)]);
    var mine := v.items[1];
    assert !HasBinary(mine);
    BinaryCounts(mine, [data], order);
    Collects(mine, [data], order);
    assert TakeItems(v, 0, [], order) == Taken(Arr([]), []);
    assert Deconstruct(v.items[0], [], order) == Taken(Placeholder(0), [] + [data]);
    assert TakeItems(v, 1, [], order).buffers == [data];
    assert Deconstruct(v, [], order) == TakeItems(v, 2, [], order);
  }

  /** A user's own placeholder map is replaced by somebody's buffer. */
  lemma {:induction false} UserPlaceholderReplaced(data: Bytes, order: Order)
    requires Enumerates(order)
    ensures var v := Arr([Binary(data), Placeholder(0)]); var t := Deconstruct(v, [], order);
      t.buffers == [data] && Reconstruct(t.value, t.buffers) != v
  {
    var v := Arr([Binary(data), Placeholder(0)]);
    OneCollected(data, order);
    RoundTrip(v, [], order, [data]);
    assert !Kept(v.items[1], 1) by { assert Index(v.items[1].fields) == 0; }
  }

  // ----- numbering -----

  /** A way into a value. */
  datatype Hop = Item(i: nat) | Field(k: string)

  ghost predicate Opens(v: Value, h: Hop) {
    (h.Item? && v.Arr? && h.i < |v.items|) || (h.Field? && v.Obj? && h.k in v.fields)
  }

  ghost function Inner(v: Value, h: Hop): Value
    requires Opens(v, h)
  {
    if h.Item? then v.items[h.i] else v.fields[h.k]
  }

  /** The parts of a value in the order they are visited. */
  ghost function Hops(v: Value, n: nat, order: Order): seq<Hop> {
    if v.Arr? then seq(|v.items|, i requires 0 <= i < |v.items| => Item(i))
    else if v.Obj? then var keys := order(n, v.fields); seq(|keys|, i requires 0 <= i < |keys| => Field(keys[i]))
    else []
  }

  /** The buffers collected before the j-th part is visited. */
  ghost function Before(v: Value, buffers: seq<Bytes>, order: Order, j: nat): seq<Bytes>
    requires j <= |Hops(v, |buffers|, order)|
  {
    if v.Arr? then TakeItems(v, j, buffers, order).buffers
    else if v.Obj? then TakeFields(v, order(|buffers|, v.fields)[..j], buffers, order).buffers
    else buffers
  }

  lemma {:induction false} ItemTaken(v: Value, n: nat, i: nat, buffers: seq<Bytes>, order: Order)
    requires v.Arr? && i < n <= |v.items|
    ensures TakeItems(v, n, buffers, order).value.items[i]
         == Deconstruct(v.items[i], TakeItems(v, i, buffers, order).buffers, order).value
    decreases n
  {
    if i < n - 1 { ItemTaken(v, n - 1, i, buffers, order); }
  }

  lemma {:induction false} FieldTaken(v: Value, keys: seq<string>, i: nat, buffers: seq<Bytes>, order: Order)
    requires v.Obj? && KeysOf(keys, v.fields) && i < |keys|
    ensures var t := TakeFields(v, keys, buffers, order).value.fields;
      keys[i] in t && t[keys[i]] == Deconstruct(v.fields[keys[i]], TakeFields(v, keys[..i], buffers, order).buffers, order).value
    decreases |keys|
  {
    var init := keys[..|keys| - 1];
    if i < |keys| - 1 {
      FieldTaken(v, init, i, buffers, order);
      assert init[..i] == keys[..i];
    } else {
      assert init == keys[..i];
    }
  }

  /** One visit: it starts with the buffers so far, ends with those of the next one, and leaves its
      result where the part was. */
  lemma {:induction false} Visit(v: Value, buffers: seq<Bytes>, order: Order, j: nat)
    requires Enumerates(order) && j < |Hops(v, |buffers|, order)|
    ensures var h, t := Hops(v, |buffers|, order)[j], Deconstruct(v, buffers, order);
      Opens(v, h) && Opens(t.value, h)
      && var d := Deconstruct(Inner(v, h), Before(v, buffers, order, j), order);
         Before(v, buffers, order, j + 1) == d.buffers && Inner(t.value, h) == d.value
  {
    if v.Arr? {
      ItemTaken(v, |v.items|, j, buffers, order);
    } else {
      FieldVisit(v, order(|buffers|, v.fields), buffers, order, j);
    }
  }

  lemma {:induction false} FieldVisit(v: Value, keys: seq<string>, buffers: seq<Bytes>, order: Order, j: nat)
    requires v.Obj? && KeysOf(keys, v.fields) && j < |keys|
    ensures var d := Deconstruct(v.fields[keys[j]], TakeFields(v, keys[..j], buffers, order).buffers, order);
      var t := TakeFields(v, keys, buffers, order).value.fields;
      TakeFields(v, keys[..j + 1], buffers, order).buffers == d.buffers && keys[j] in t && t[keys[j]] == d.value
  {
    FieldTaken(v, keys, j, buffers, order);
    assert keys[..j + 1][..j] == keys[..j] && keys[..j + 1][j] == keys[j];
  }

  lemma {:induction false} VisitEnds(v: Value, buffers: seq<Bytes>, order: Order)
    ensures Before(v, buffers, order, 0) == buffers
    ensures !v.Binary? ==> Before(v, buffers, order, |Hops(v, |buffers|, order)|) == Deconstruct(v, buffers, order).buffers
  {
    if v.Obj? {
      var keys := order(|buffers|, v.fields);
      assert keys[..|keys|] == keys;
    }
  }

  lemma {:induction false} VisitCollects(v: Value, buffers: seq<Bytes>, order: Order, j: nat)
    requires Enumerates(order) && j < |Hops(v, |buffers|, order)|
    ensures Before(v, buffers, order, j) <= Before(v, buffers, order, j + 1)
  {
    Visit(v, buffers, order, j);
    Collects(Inner(v, Hops(v, |buffers|, order)[j]), Before(v, buffers, order, j), order);
  }

  lemma {:induction false} BeforeGrows(v: Value, buffers: seq<Bytes>, order: Order, i: nat, j: nat)
    requires Enumerates(order) && i <= j <= |Hops(v, |buffers|, order)|
    ensures Before(v, buffers, order, i) <= Before(v, buffers, order, j)
    decreases j
  {
    if i < j {
      BeforeGrows(v, buffers, order, i, j - 1);
      VisitCollects(v, buffers, order, j - 1);
      Longer(Before(v, buffers, order, i), Before(v, buffers, order, j - 1), Before(v, buffers, order, j));
    }
  }

  /** Where a hop comes in the visit. */
  lemma {:induction false} SlotOf(v: Value, n: nat, order: Order, h: Hop) returns (j: nat)
    requires Enumerates(order) && Opens(v, h)
    ensures j < |Hops(v, n, order)| && Hops(v, n, order)[j] == h
    ensures forall i | 0 <= i < |Hops(v, n, order)| && Hops(v, n, order)[i] == h :: i == j
  {
    if v.Arr? {
      j := h.i;
    } else {
      var keys := order(n, v.fields);
      assert h.k in keys;
      j :| 0 <= j < |keys| && keys[j] == h.k;
    }
  }

  /** The path leads to something binary. */
  ghost predicate BinaryAt(v: Value, path: seq<Hop>)
    decreases |path|
  {
    if path == [] then v.Binary? else Opens(v, path[0]) && BinaryAt(Inner(v, path[0]), path[1..])
  }

  /** What the path leads to, in another value of the same shape. */
  ghost function Follow(w: Value, path: seq<Hop>): Value
    decreases |path|
  {
    if path == [] then w else if Opens(w, path[0]) then Follow(Inner(w, path[0]), path[1..]) else Null
  }

  /** The deconstructed value has, at each path to something binary, a placeholder with the number
      of its buffer. */
  lemma {:induction false} Numbered(v: Value, buffers: seq<Bytes>, order: Order, path: seq<Hop>) returns (n: nat)
    requires Enumerates(order) && BinaryAt(v, path)
    ensures var t := Deconstruct(v, buffers, order);
      && |buffers| <= n < |t.buffers| && Follow(t.value, path) == Placeholder(n) && Follow(v, path) == Binary(t.buffers[n])
    decreases |path|
  {
    if path == [] {
      n := |buffers|;
    } else {
      var h := path[0];
      var j := SlotOf(v, |buffers|, order, h);
      var before := Before(v, buffers, order, j);
      Visit(v, buffers, order, j);
      n := Numbered(Inner(v, h), before, order, path[1..]);
      BeforeGrows(v, buffers, order, 0, j);
      BeforeGrows(v, buffers, order, j + 1, |Hops(v, |buffers|, order)|);
      VisitEnds(v, buffers, order);
    }
  }

  /** Different paths get different numbers. */
  lemma {:induction false} NumberedOnce(v: Value, buffers: seq<Bytes>, order: Order, p: seq<Hop>, q: seq<Hop>, n: nat)
    requires Enumerates(order) && BinaryAt(v, p) && BinaryAt(v, q)
    requires var w := Deconstruct(v, buffers, order).value; Follow(w, p) == Placeholder(n) && Follow(w, q) == Placeholder(n)
    ensures p == q
    decreases |p|
  {
    if p != [] && q != [] {
      var i := SlotOf(v, |buffers|, order, p[0]);
      var j := SlotOf(v, |buffers|, order, q[0]);
      Visit(v, buffers, order, i);
      Visit(v, buffers, order, j);
      if i == j {
        NumberedOnce(Inner(v, p[0]), Before(v, buffers, order, i), order, p[1..], q[1..], n);
      } else {
        var a, b := Apart(v, buffers, order, i, j, p, q);
        SameNumber(a, b);
      }
    }
  }

  lemma {:induction false} SameNumber(m: nat, n: nat)
    requires Placeholder(m) == Placeholder(n)
    ensures m == n
  {
    assert Placeholder(m).fields["num"] == Placeholder(n).fields["num"];
  }

  /** What is binary below the j-th part has a number between those of its neighbours. */
  lemma {:induction false} NumberedAt(v: Value, buffers: seq<Bytes>, order: Order, j: nat, p: seq<Hop>) returns (n: nat)
    requires Enumerates(order) && p != [] && BinaryAt(v, p) && j < |Hops(v, |buffers|, order)| && Hops(v, |buffers|, order)[j] == p[0]
    ensures |Before(v, buffers, order, j)| <= n < |Before(v, buffers, order, j + 1)|
    ensures Follow(Deconstruct(v, buffers, order).value, p) == Placeholder(n)
  {
    Visit(v, buffers, order, j);
    n := Numbered(Inner(v, p[0]), Before(v, buffers, order, j), order, p[1..]);
  }

  /** Parts visited at different times share no number. */
  lemma {:induction false} Apart(v: Value, buffers: seq<Bytes>, order: Order, i: nat, j: nat, p: seq<Hop>, q: seq<Hop>)
    returns (a: nat, b: nat)
    requires Enumerates(order) && p != [] && q != [] && BinaryAt(v, p) && BinaryAt(v, q) && i != j
    requires var hs := Hops(v, |buffers|, order); i < |hs| && j < |hs| && hs[i] == p[0] && hs[j] == q[0]
    ensures var w := Deconstruct(v, buffers, order).value; Follow(w, p) == Placeholder(a) && Follow(w, q) == Placeholder(b) && a != b
  {
    a := NumberedAt(v, buffers, order, i, p);
    b := NumberedAt(v, buffers, order, j, q);
    if i < j { NoFewer(v, buffers, order, i + 1, j); } else { NoFewer(v, buffers, order, j + 1, i); }
  }

  lemma {:induction false} NoFewer(v: Value, buffers: seq<Bytes>, order: Order, i: nat, j: nat)
    requires Enumerates(order) && i <= j <= |Hops(v, |buffers|, order)|
    ensures |Before(v, buffers, order, i)| <= |Before(v, buffers, order, j)|
  {
    BeforeGrows(v, buffers, order, i, j);
  }

  // The visit that hands out the number n.
  lemma {:induction false} VisitOf(v: Value, buffers: seq<Bytes>, order: Order, n: nat) returns (j: nat)
    requires Enumerates(order) && !v.Binary? && |buffers| <= n < |Deconstruct(v, buffers, order).buffers|
    ensures j < |Hops(v, |buffers|, order)|
    ensures |Before(v, buffers, order, j)| <= n < |Before(v, buffers, order, j + 1)|
  {
    VisitEnds(v, buffers, order);
    j := 0;
    while |Before(v, buffers, order, j + 1)| <= n
      invariant j < |Hops(v, |buffers|, order)| && |Before(v, buffers, order, j)| <= n
      decreases |Hops(v, |buffers|, order)| - j
    {
      j := j + 1;
    }
  }

  /** Every number is used. */
  lemma {:induction false} EveryNumberUsed(v: Value, buffers: seq<Bytes>, order: Order, n: nat) returns (path: seq<Hop>)
    requires Enumerates(order) && |buffers| <= n < |Deconstruct(v, buffers, order).buffers|
    ensures BinaryAt(v, path) && Follow(Deconstruct(v, buffers, order).value, path) == Placeholder(n)
    decreases v
  {
    if v.Binary? {
      path := [];
    } else {
      var j := VisitOf(v, buffers, order, n);
      Visit(v, buffers, order, j);
      var h := Hops(v, |buffers|, order)[j];
      var tail := EveryNumberUsed(Inner(v, h), Before(v, buffers, order, j), order, n);
      path := [h] + tail;
      assert path[1..] == tail;
    }
  }
}
