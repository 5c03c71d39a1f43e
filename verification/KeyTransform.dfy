/** A datastore that renames keys, and how it splits queries (datastore/keytransform). */
module KeyTransform {
  import opened Words
  import opened Keys
  import opened Queries

  datatype Transform =
    | PrefixTransform(prefix: Str)
    | Pair(convert: Str -> Str, invert: Str -> Str)

  function ConvertKey(t: Transform, k: Str): Str {
    match t
    case PrefixTransform(prefix) => Child(prefix, k)
    case Pair(convert, _) => convert(k)
  }

  /** InvertKey; None is a panic, of the prefix check or of RawKey. */
  function InvertKey(t: Transform, k: Str): Option<Str> {
    match t
    case Pair(_, invert) => Some(invert(k))
    case PrefixTransform(prefix) =>
      if prefix == ROOT then Some(k)
      else if !IsAncestorOf(prefix, k) then None
      else
        var s := k[|prefix|..];
        if |s| > 1 && s[|s| - 1] == SLASH then None else Some(s)
  }

  // --- prepareQuery ------------------------------------------------------------------------------

  /** The orders the child can apply: up to and including the first key order. */
  function PushOrders(orders: seq<Order>, preserving: bool): Option<seq<Order>> {
    if orders == [] then Some([])
    else match orders[0]
      case ByFunction(_) => None
      case ByKey => if preserving then Some([ByKey]) else None
      case ByKeyDescending => if preserving then Some([ByKeyDescending]) else None
      case o =>
        match PushOrders(orders[1..], preserving)
        case None => None
        case Some(rest) => Some([o] + rest)
  }

  function PushFilter(t: Transform, f: Filter): Option<Filter> {
    match f
    case ValueCompare(_, _) => Some(f)
    case KeyCompare(op, key) => Some(KeyCompare(op, ConvertKey(t, NewKey(key))))
    case KeyPrefix(prefix) => Some(KeyPrefix(ConvertKey(t, NewKey(prefix))))
    case Custom(_) => None
  }

  function PushFilters(t: Transform, fs: seq<Filter>): Option<seq<Filter>> {
    if fs == [] then Some([])
    else match (PushFilter(t, fs[0]), PushFilters(t, fs[1..]))
      case (Some(f), Some(rest)) => Some([f] + rest)
      case _ => None
  }

  /** prepareQuery as a function: what is left to do naively, and what the child is asked. */
  function Prepared(t: Transform, q: Query): (Query, Query) {
    var os := PushOrders(q.orders, t.PrefixTransform?);
    var fs := PushFilters(t, q.filters);
    var late := os.None? || fs.None?;
    var naive := Query([], if fs.None? then q.filters else [], if os.None? then q.orders else [],
                       if late then q.limit else 0, if late then q.offset else 0, false);
    var child := Query(ConvertKey(t, NewKey(q.prefix)), if fs.None? then [] else fs.value,
                       if os.None? then [] else os.value,
                       if late then 0 else q.limit, if late then 0 else q.offset, q.keysOnly);
    (naive, child)
  }

  lemma {:induction false} PushOrdersAt(orders: seq<Order>, preserving: bool, i: nat)
    requires i <= |orders| && forall j :: 0 <= j < i ==> orders[j].ByValue? || orders[j].ByValueDescending?
    ensures PushOrders(orders, preserving) ==
      match PushOrders(orders[i..], preserving) case None => None case Some(rest) => Some(orders[..i] + rest)
  {
    if i == 0 {
      assert orders[0..] == orders;
      assert PushOrders(orders, preserving).Some? ==>
               orders[..0] + PushOrders(orders, preserving).value == PushOrders(orders, preserving).value;
    } else {
      PushOrdersAt(orders[1..], preserving, i - 1);
      assert orders[1..][i - 1..] == orders[i..];
      assert [orders[0]] + orders[1..][..i - 1] == orders[..i];
      match PushOrders(orders[i..], preserving)
      case None =>
      case Some(rest) => assert [orders[0]] + (orders[1..][..i - 1] + rest) == orders[..i] + rest;
    }
  }

  lemma {:induction false} PushFiltersAt(t: Transform, fs: seq<Filter>, i: nat, done: seq<Filter>)
    requires i <= |fs| && |done| == i
    requires forall j :: 0 <= j < i ==> PushFilter(t, fs[j]) == Some(done[j])
    ensures PushFilters(t, fs) ==
      match PushFilters(t, fs[i..]) case None => None case Some(rest) => Some(done + rest)
  {
    hide PushFilter;
    if i == 0 {
      assert fs[0..] == fs;
      assert PushFilters(t, fs).Some? ==> done + PushFilters(t, fs).value == PushFilters(t, fs).value;
    } else {
      PushFiltersAt(t, fs[1..], i - 1, done[1..]);
      assert fs[1..][i - 1..] == fs[i..];
      match PushFilters(t, fs[i..])
      case None =>
      case Some(rest) => assert [done[0]] + (done[1..] + rest) == done + rest;
    }
  }

  method PrepareQuery(t: Transform, q: Query) returns (naive: Query, child: Query)
    ensures (naive, child) == Prepared(t, q)
  {
    naive := NO_QUERY;
    child := q;
    child := child.(prefix := ConvertKey(t, NewKey(child.prefix)));
    var orderPreserving := t.PrefixTransform?;
    var i := 0;
    while i < |q.orders|
      invariant i <= |q.orders| && naive == NO_QUERY && child == q.(prefix := ConvertKey(t, NewKey(q.prefix)))
      invariant forall j :: 0 <= j < i ==> q.orders[j].ByValue? || q.orders[j].ByValueDescending?
    {
      var o := q.orders[i];
      if o.ByValue? || o.ByValueDescending? {
        i := i + 1;
      } else {
        PushOrdersAt(q.orders, orderPreserving, i);
        assert q.orders[..i + 1] == q.orders[..i] + [o];
        if (o.ByKey? || o.ByKeyDescending?) && orderPreserving {
          child := child.(orders := q.orders[..i + 1]);
        } else {
          naive := naive.(orders := q.orders, offset := q.offset, limit := q.limit);
          child := child.(orders := [], offset := 0, limit := 0);
        }
        break;
      }
    }
    if i == |q.orders| {
      PushOrdersAt(q.orders, orderPreserving, i);
      assert q.orders[i..] == [] && q.orders[..i] + [] == q.orders;
    }
    ghost var os := PushOrders(q.orders, orderPreserving);
    assert if os.None? then
        && naive == NO_QUERY.(orders := q.orders, offset := q.offset, limit := q.limit)
        && child == q.(prefix := ConvertKey(t, NewKey(q.prefix)), orders := [], offset := 0, limit := 0)
      else naive == NO_QUERY && child == q.(prefix := ConvertKey(t, NewKey(q.prefix)), orders := os.value);
    naive, child := PushDownFilters(t, q, naive, child);
  }

  /** The second loop of prepareQuery. */
  method PushDownFilters(t: Transform, q: Query, naive0: Query, child0: Query) returns (naive: Query, child: Query)
    requires child0.filters == q.filters && naive0.filters == []
    ensures var fs := PushFilters(t, q.filters);
            if fs.None? then
              && naive == naive0.(filters := q.filters, offset := q.offset, limit := q.limit)
              && child == child0.(filters := [], offset := 0, limit := 0)
            else naive == naive0 && child == child0.(filters := fs.value)
  {
    naive, child := naive0, child0;
    var i := 0;
    while i < |q.filters|
      invariant i <= |q.filters| == |child.filters| && naive == naive0 && child == child0.(filters := child.filters)
      invariant child.filters[i..] == q.filters[i..]
      invariant forall j :: 0 <= j < i ==> PushFilter(t, q.filters[j]) == Some(child.filters[j])
    {
      var f := child.filters[i];
      assert f == child.filters[i..][0] == q.filters[i];
      match f {
        case ValueCompare(_, _) =>
        case KeyCompare(op, key) =>
          child := child.(filters := child.filters[i := KeyCompare(op, ConvertKey(t, NewKey(key)))]);
        case KeyPrefix(prefix) =>
          child := child.(filters := child.filters[i := KeyPrefix(ConvertKey(t, NewKey(prefix)))]);
        case Custom(_) =>
          PushFiltersAt(t, q.filters, i, child.filters[..i]);
          naive := naive.(filters := q.filters, offset := q.offset, limit := q.limit);
          child := child.(filters := [], offset := 0, limit := 0);
          return;
      }
      assert child.filters[i + 1..] == q.filters[i..][1..] == q.filters[i + 1..];
      i := i + 1;
    }
    PushFiltersAt(t, q.filters, i, child.filters);
    assert child.filters + [] == child.filters;
  }
}
