/** The cursor pagination of a merchant's payments. */
module Pagination {
  import opened Domain

  const LIMIT_DEFAULT := 50
  const LIMIT_MAX := 100

  datatype Row = Row(merchantID: int, kind: PaymentKind, orderUUID: string)

  datatype Cursor = NoCursor | Malformed | Order(uuid: string)

  datatype Options = Options(limit: int, cursor: Cursor, reverseOrder: bool, filterByType: seq<PaymentKind>)

  datatype Listing =
    | Page(ids: seq<nat>, next: Cursor)
    | InvalidLimit
    | InvalidCursor
    | NotFound
    | QueryFailed
    | Panics

  /** An order id is unique within a merchant. The id of a row is its index. */
  ghost predicate UniqueOrders(rows: seq<Row>) {
    forall i, j :: 0 <= i < j < |rows| ==>
      (rows[i].merchantID, rows[i].orderUUID) != (rows[j].merchantID, rows[j].orderUUID)
  }

  /** int32(limit) in Go. */
  function Int32(n: int): (r: int)
    ensures -0x8000_0000 <= r < 0x8000_0000
  {
    (n + 0x8000_0000) % 0x1_0000_0000 - 0x8000_0000
  }

  // ---------------------------------------------------------------- the queries

  predicate Matches(row: Row, merchantID: int, filter: seq<PaymentKind>) {
    row.merchantID == merchantID && (|filter| > 0 ==> row.kind in filter)
  }

  /** The ids of all matching payments, ascending. */
  function Ascending(rows: seq<Row>, merchantID: int, filter: seq<PaymentKind>): (ids: seq<nat>)
    ensures forall id: nat :: id in ids <==> id < |rows| && Matches(rows[id], merchantID, filter)
    ensures forall i, j :: 0 <= i < j < |ids| ==> ids[i] < ids[j]
  {
    if |rows| == 0 then []
    else
      var last := |rows| - 1;
      var rest := Ascending(rows[..last], merchantID, filter);
      assert forall i :: 0 <= i < |rest| ==> rest[i] in rest;
      rest + if Matches(rows[last], merchantID, filter) then [last] else []
  }

  function Reversed(s: seq<nat>): (r: seq<nat>)
    ensures |r| == |s| && forall i :: 0 <= i < |s| ==> r[i] == s[|s| - 1 - i]
  {
    seq(|s|, i requires 0 <= i < |s| => s[|s| - 1 - i])
  }

  predicate Sorted(ids: seq<nat>, reverse: bool) {
    forall i, j :: 0 <= i < j < |ids| ==> if reverse then ids[i] > ids[j] else ids[i] < ids[j]
  }

  /** What a listing is over: the matching payments of the merchant in the order asked for. */
  function Ordered(rows: seq<Row>, merchantID: int, opts: Options): (ids: seq<nat>)
    ensures forall i :: 0 <= i < |ids| ==> ids[i] < |rows| && Matches(rows[ids[i]], merchantID, opts.filterByType)
  {
    var asc := Ascending(rows, merchantID, opts.filterByType);
    assert forall i :: 0 <= i < |asc| ==> asc[i] in asc;
    if opts.reverseOrder then Reversed(asc) else asc
  }

  predicate From(id: nat, start: Option<nat>, reverse: bool) {
    start.None? || (if reverse then id <= start.value else id >= start.value)
  }

  /** WHERE id >= $2 (or <=), in order, LIMIT $3. */
  function Query(ids: seq<nat>, start: Option<nat>, reverse: bool, limit: nat): seq<nat> {
    if |ids| == 0 || limit == 0 then []
    else if From(ids[0], start, reverse) then [ids[0]] + Query(ids[1..], start, reverse, limit - 1)
    else Query(ids[1..], start, reverse, limit)
  }

  function FindOrder(rows: seq<Row>, merchantID: int, uuid: string): (r: Option<nat>)
    ensures r.None? ==> forall i :: 0 <= i < |rows| ==> rows[i].merchantID != merchantID || rows[i].orderUUID != uuid
    ensures r.Some? ==> r.value < |rows| && rows[r.value].merchantID == merchantID && rows[r.value].orderUUID == uuid
  {
    if |rows| == 0 then None
    else if rows[|rows| - 1].merchantID == merchantID && rows[|rows| - 1].orderUUID == uuid then Some(|rows| - 1)
    else FindOrder(rows[..|rows| - 1], merchantID, uuid)
  }

  // ---------------------------------------------------------------- one page

  /** The limit in force, when it is a usable one. */
  function EffectiveLimit(limit: int): int {
    if Int32(limit) == 0 then LIMIT_DEFAULT else Int32(limit)
  }

  /** How many of the listed payments stand before the start. */
  function Position(ids: seq<nat>, start: Option<nat>, reverse: bool): (k: nat)
    ensures k <= |ids|
  {
    if |ids| == 0 || From(ids[0], start, reverse) then 0 else 1 + Position(ids[1..], start, reverse)
  }

  function OrderOf(rows: seq<Row>, id: nat): Cursor {
    if id < |rows| then Order(rows[id].orderUUID) else NoCursor
  }

  predicate InRows(rows: seq<Row>, ids: seq<nat>, merchantID: int) {
    forall i :: 0 <= i < |ids| ==> ids[i] < |rows| && rows[ids[i]].merchantID == merchantID
  }

  /** A page: as many payments as the limit from a position on, and the order id of the one
      behind them. */
  function PageAt(rows: seq<Row>, ids: seq<nat>, k: nat, limit: nat): Listing
    requires k <= |ids|
  {
    if k + limit < |ids| then Page(ids[k..k + limit], OrderOf(rows, ids[k + limit]))
    else Page(ids[k..], NoCursor)
  }

  /** One call: a page of the list `ids`, or why there is none. */
  function Listed(rows: seq<Row>, ids: seq<nat>, merchantID: int, cursor: Cursor, reverse: bool, limit: int): Listing {
    if limit > LIMIT_MAX then InvalidLimit
    else if cursor.Malformed? then InvalidCursor
    else
      var start := if cursor.NoCursor? then None else FindOrder(rows, merchantID, cursor.uuid);
      if cursor.Order? && start.None? then NotFound
      else if limit < -1 then QueryFailed
      else if limit == -1 then Panics
      else PageAt(rows, ids, Position(ids, start, reverse), limit)
  }

  lemma {:induction false} QuerySkips(ids: seq<nat>, start: Option<nat>, reverse: bool, limit: nat)
    ensures Query(ids, start, reverse, limit) == Query(ids[Position(ids, start, reverse)..], start, reverse, limit)
  {
    var k := Position(ids, start, reverse);
    if k > 0 {
      QuerySkips(ids[1..], start, reverse, limit);
      assert ids[1..][k - 1..] == ids[k..];
    } else {
      assert ids[0..] == ids;
    }
  }

  function Least(a: nat, b: nat): nat {
    if a <= b then a else b
  }

  lemma {:induction false} QueryTakes(ids: seq<nat>, start: Option<nat>, reverse: bool, limit: nat)
    requires forall i :: 0 <= i < |ids| ==> From(ids[i], start, reverse)
    ensures Query(ids, start, reverse, limit) == ids[..Least(limit, |ids|)]
  {
    if |ids| > 0 && limit > 0 {
      QueryTakes(ids[1..], start, reverse, limit - 1);
      var n := Least(limit, |ids|);
      assert ids[..n] == [ids[0]] + ids[1..][..n - 1];
    }
  }

  lemma {:induction false} PositionEndsSkipping(ids: seq<nat>, start: Option<nat>, reverse: bool)
    ensures var k := Position(ids, start, reverse); k < |ids| ==> From(ids[k], start, reverse)
  {
    if |ids| > 0 && !From(ids[0], start, reverse) {
      PositionEndsSkipping(ids[1..], start, reverse);
    }
  }

  /** In an ordered list the query skips to the position and takes what it may. */
  lemma QueryResult(ids: seq<nat>, start: Option<nat>, reverse: bool, limit: nat)
    requires Sorted(ids, reverse)
    ensures var rest := ids[Position(ids, start, reverse)..];
      Query(ids, start, reverse, limit) == rest[..Least(limit, |rest|)]
  {
    var k := Position(ids, start, reverse);
    PositionEndsSkipping(ids, start, reverse);
    forall i | 0 <= i < |ids[k..]| ensures From(ids[k..][i], start, reverse) {
      assert i > 0 ==> if reverse then ids[k] > ids[k + i] else ids[k] < ids[k + i];
    }
    QuerySkips(ids, start, reverse, limit);
    QueryTakes(ids[k..], start, reverse, limit);
  }

  lemma OrderedIsSorted(rows: seq<Row>, merchantID: int, opts: Options)
    ensures Sorted(Ordered(rows, merchantID, opts), opts.reverseOrder)
    ensures InRows(rows, Ordered(rows, merchantID, opts), merchantID)
  {
  }

  /** The query for one row more than the page, and the page and cursor made of it. */
  method FetchPage(rows: seq<Row>, ids: seq<nat>, merchantID: int, start: Option<nat>, reverse: bool, limit: int)
    returns (listing: Listing)
    requires Sorted(ids, reverse) && limit >= -1 && InRows(rows, ids, merchantID)
    ensures listing ==
              if limit == -1 then Panics else PageAt(rows, ids, Position(ids, start, reverse), limit)
  {
    QueryResult(ids, start, reverse, limit + 1);
    ghost var k := Position(ids, start, reverse);
    var payments := Query(ids, start, reverse, limit + 1);
    var nextCursor := NoCursor;
    if |payments| > limit {
      if |payments| == 0 {
        return Panics;
      }
      assert payments[|payments| - 1] == ids[k + limit];
      assert payments[..limit] == ids[k..k + limit];
      nextCursor := Order(rows[payments[|payments| - 1]].orderUUID);
      payments := payments[..limit];
    }
    return Page(payments, nextCursor);
  }

  /** payment.Service.List. A limit of -1 asks for no rows, is exceeded by none, and then the
      last of none is taken. */
  method List(rows: seq<Row>, merchantID: int, opts: Options) returns (listing: Listing)
    ensures InRows(rows, Ordered(rows, merchantID, opts), merchantID)
    ensures listing == Listed(rows, Ordered(rows, merchantID, opts), merchantID, opts.cursor, opts.reverseOrder,
                              EffectiveLimit(opts.limit))
  {
    OrderedIsSorted(rows, merchantID, opts);
    var limit := Int32(opts.limit);
    if limit == 0 {
      limit := LIMIT_DEFAULT;
    }
    if limit > LIMIT_MAX {
      return InvalidLimit;
    }
    var cursorPayment: Option<nat> := None;
    if !opts.cursor.NoCursor? {
      if opts.cursor.Malformed? {
        return InvalidCursor;
      }
      cursorPayment := FindOrder(rows, merchantID, opts.cursor.uuid);
      if cursorPayment.None? {
        return NotFound;
      }
    }
    if limit + 1 < 0 {
      return QueryFailed;
    }
    listing := FetchPage(rows, Ordered(rows, merchantID, opts), merchantID, cursorPayment, opts.reverseOrder, limit);
  }

  // ---------------------------------------------------------------- following the cursors

  /** The order id of a row leads back to that row. */
  lemma CursorFindsRow(rows: seq<Row>, merchantID: int, id: nat)
    requires UniqueOrders(rows) && id < |rows| && rows[id].merchantID == merchantID
    ensures FindOrder(rows, merchantID, rows[id].orderUUID) == Some(id)
  {
  }

  /** The position of a listed payment is its index. */
  lemma {:induction false} PositionOf(ids: seq<nat>, k: nat, reverse: bool)
    requires k < |ids| && Sorted(ids, reverse)
    ensures Position(ids, Some(ids[k]), reverse) == k
  {
    if k > 0 {
      PositionOf(ids[1..], k - 1, reverse);
    }
  }

  lemma PositionAtStart(ids: seq<nat>, reverse: bool)
    ensures Position(ids, None, reverse) == 0
  {
  }

  /** What a caller of `list` gets who follows the cursors to their end, in at most `pages`
      calls. */
  function Follow(list: Cursor -> Listing, cursor: Cursor, pages: nat): Option<seq<nat>>
    decreases pages
  {
    if pages == 0 then None
    else
      match list(cursor)
      case Page(page, next) => if next.NoCursor? then Some(page) else Prepended(page, Follow(list, next, pages - 1))
      case _ => None
  }

  function Prepended(page: seq<nat>, rest: Option<seq<nat>>): Option<seq<nat>> {
    if rest.None? then None else Some(page + rest.value)
  }

  /** The call at position k gives its page and the cursor of the next; `at` gives the cursor
      of a position. */
  predicate StepsAt(list: Cursor -> Listing, at: nat -> Cursor, ids: seq<nat>, limit: nat, k: nat)
    requires k <= |ids|
  {
    if k + limit < |ids| then at(k + limit).Order? && list(at(k)) == Page(ids[k..k + limit], at(k + limit))
    else list(at(k)) == Page(ids[k..], NoCursor)
  }

  ghost predicate StepsThrough(list: Cursor -> Listing, at: nat -> Cursor, ids: seq<nat>, limit: nat) {
    forall k: nat | k == 0 || k < |ids| :: StepsAt(list, at, ids, limit, k)
  }

  lemma {:induction false} FollowFrom(list: Cursor -> Listing, at: nat -> Cursor, ids: seq<nat>, limit: nat,
                                      k: nat, pages: nat)
    requires limit > 0 && StepsThrough(list, at, ids, limit)
    requires (k == 0 || k < |ids|) && |ids| - k <= pages && pages > 0
    ensures Follow(list, at(k), pages) == Some(ids[k..])
    decreases pages
  {
    assert StepsAt(list, at, ids, limit, k);
    if k + limit < |ids| {
      FollowFrom(list, at, ids, limit, k + limit, pages - 1);
      Rejoined(ids, k, k + limit);
    }
  }

  lemma Rejoined(ids: seq<nat>, k: nat, end: nat)
    requires k <= end <= |ids|
    ensures ids[k..end] + ids[end..] == ids[k..]
  {
    var a, b := ids[k..end] + ids[end..], ids[k..];
    forall i | 0 <= i < |b| ensures a[i] == b[i] {
    }
  }

  /** The cursor of a position: none for the first, the order id of its row for the others. */
  function CursorAt(rows: seq<Row>, ids: seq<nat>, k: nat): Cursor {
    if 0 < k < |ids| && ids[k] < |rows| then Order(rows[ids[k]].orderUUID) else NoCursor
  }

  lemma TurnPage(rows: seq<Row>, ids: seq<nat>, merchantID: int, reverse: bool, limit: nat, k: nat)
    requires UniqueOrders(rows) && 0 < limit <= LIMIT_MAX && InRows(rows, ids, merchantID) && Sorted(ids, reverse)
    requires k == 0 || k < |ids|
    ensures Listed(rows, ids, merchantID, CursorAt(rows, ids, k), reverse, limit) == PageAt(rows, ids, k, limit)
  {
    if k == 0 {
      PositionAtStart(ids, reverse);
    } else {
      CursorFindsRow(rows, merchantID, ids[k]);
      PositionOf(ids, k, reverse);
    }
  }

  lemma {:induction false} AtMostAllRows(rows: seq<Row>, merchantID: int, filter: seq<PaymentKind>)
    ensures |Ascending(rows, merchantID, filter)| <= |rows|
  {
    if |rows| > 0 {
      AtMostAllRows(rows[..|rows| - 1], merchantID, filter);
    }
  }

  /** In whichever order, the list holds exactly the matching rows. */
  lemma OrderedIsComplete(rows: seq<Row>, merchantID: int, opts: Options)
    ensures |Ordered(rows, merchantID, opts)| <= |rows|
    ensures forall id: nat :: id in Ordered(rows, merchantID, opts) <==>
                              id < |rows| && Matches(rows[id], merchantID, opts.filterByType)
  {
    var asc, ids := Ascending(rows, merchantID, opts.filterByType), Ordered(rows, merchantID, opts);
    AtMostAllRows(rows, merchantID, opts.filterByType);
    forall id: nat | id in asc ensures id in ids {
      var i :| 0 <= i < |asc| && asc[i] == id;
      assert ids[if opts.reverseOrder then |asc| - 1 - i else i] == id;
    }
  }

  lemma LimitInForce(limit: int)
    requires 0 <= limit <= LIMIT_MAX
    ensures 0 < EffectiveLimit(limit) <= LIMIT_MAX
  {
  }

  /** The calls a caller makes, by cursor. */
  function Calls(rows: seq<Row>, ids: seq<nat>, merchantID: int, reverse: bool, limit: int): Cursor -> Listing {
    (cursor: Cursor) => Listed(rows, ids, merchantID, cursor, reverse, limit)
  }

  lemma CallsStepThrough(rows: seq<Row>, ids: seq<nat>, merchantID: int, reverse: bool, limit: nat)
    requires UniqueOrders(rows) && 0 < limit <= LIMIT_MAX && InRows(rows, ids, merchantID) && Sorted(ids, reverse)
    ensures StepsThrough(Calls(rows, ids, merchantID, reverse, limit), (k: nat) => CursorAt(rows, ids, k), ids, limit)
  {
    var list, at := Calls(rows, ids, merchantID, reverse, limit), (k: nat) => CursorAt(rows, ids, k);
    forall k: nat | k == 0 || k < |ids| ensures StepsAt(list, at, ids, limit, k) {
      TurnPage(rows, ids, merchantID, reverse, limit, k);
      if k + limit < |ids| {
        assert rows[ids[k + limit]].merchantID == merchantID;
      }
    }
  }

  /** Whatever list of rows it is, its calls yield it. */
  lemma FollowAll(rows: seq<Row>, ids: seq<nat>, merchantID: int, reverse: bool, limit: nat, pages: nat)
    requires UniqueOrders(rows) && 0 < limit <= LIMIT_MAX && InRows(rows, ids, merchantID) && Sorted(ids, reverse)
    requires |ids| <= pages && pages > 0
    ensures Follow(Calls(rows, ids, merchantID, reverse, limit), NoCursor, pages) == Some(ids)
  {
    CallsStepThrough(rows, ids, merchantID, reverse, limit);
    FollowFrom(Calls(rows, ids, merchantID, reverse, limit), (k: nat) => CursorAt(rows, ids, k), ids, limit, 0, pages);
    assert ids[0..] == ids;
  }

  /** From the empty cursor: for every limit from 1 to 100, and for 0, which means 50, the
      cursors come to an end, and the pages together are every matching payment of the
      merchant exactly once, in the order asked for. */
  lemma EveryPaymentOnce(rows: seq<Row>, merchantID: int, opts: Options)
    requires UniqueOrders(rows) && 0 <= opts.limit <= 100
    ensures var ids, limit := Ordered(rows, merchantID, opts), EffectiveLimit(opts.limit);
            var all := Follow(Calls(rows, ids, merchantID, opts.reverseOrder, limit), NoCursor, |rows| + 1);
      && all.Some?
      && (forall id: nat :: id in all.value <==>
            && id < |rows| && rows[id].merchantID == merchantID
            && (opts.filterByType == [] || rows[id].kind in opts.filterByType))
      && Sorted(all.value, opts.reverseOrder)
  {
    OrderedIsSorted(rows, merchantID, opts);
    OrderedIsComplete(rows, merchantID, opts);
    LimitInForce(opts.limit);
    FollowAll(rows, Ordered(rows, merchantID, opts), merchantID, opts.reverseOrder, EffectiveLimit(opts.limit),
              |rows| + 1);
  }

  /** Which limits fail, and how: the number is first cut to 32 bits. Any other limit is the
      size of the first page, if there are as many payments, and 0 means 50. */
  lemma LimitExact(rows: seq<Row>, ids: seq<nat>, merchantID: int, reverse: bool, limit: int)
    requires InRows(rows, ids, merchantID)
    ensures var listing := Listed(rows, ids, merchantID, NoCursor, reverse, EffectiveLimit(limit));
      && (listing.InvalidLimit? <==> Int32(limit) > 100)
      && (listing.Panics? <==> Int32(limit) == -1)
      && (listing.QueryFailed? <==> Int32(limit) < -1)
      && (listing.Page? <==> 0 <= Int32(limit) <= 100)
      && (listing.Page? ==>
            var size := if Int32(limit) == 0 then 50 else Int32(limit);
            && listing.ids == ids[..if size <= |ids| then size else |ids|]
            && (listing.next == NoCursor <==> |ids| <= size))
  {
  }
}
