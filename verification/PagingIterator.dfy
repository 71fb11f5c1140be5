/** The paging iterator (common/collection/pagingIterator.go): it walks a chain of pages, each
    naming the token of the next, and hands out their items one at a time. */
module PagingIterator {
  import opened Wrappers

  /** A page token; the empty one asks for the first page and ends the chain. */
  type Token = seq<int>

  type Error = string

  datatype Page<V> = Page(items: seq<V>, next: Token) | PageError(error: Error)

  type PaginationFn<!V> = Token -> Page<V>

  datatype Delivery<V> = Item(item: V) | Failed(error: Error)

  /** The chain from `token` ends within `n` further pages. */
  ghost predicate Ends<V>(fn: PaginationFn<V>, token: Token, n: nat)
    decreases n
  {
    match fn(token)
    case PageError(_) => true
    case Page(_, next) => next == [] || (n > 0 && Ends(fn, next, n - 1))
  }

  function Items<V>(vs: seq<V>): (r: seq<Delivery<V>>)
    ensures |r| == |vs|
    ensures forall i | 0 <= i < |vs| :: r[i] == Item(vs[i])
  {
    seq(|vs|, i requires 0 <= i < |vs| => Item(vs[i]))
  }

  /** All items of the chain from `token`, in order, and then its error if it has one. */
  ghost function Deliveries<V>(fn: PaginationFn<V>, token: Token, n: nat): seq<Delivery<V>>
    requires Ends(fn, token, n)
    decreases n
  {
    match fn(token)
    case PageError(e) => [Failed(e)]
    case Page(items, next) => Items(items) + if next == [] then [] else Deliveries(fn, next, n - 1)
  }

  /** The pages of the chain, read with nothing but the pagination function. */
  ghost function Pages<V>(fn: PaginationFn<V>, token: Token, n: nat): seq<seq<V>>
    requires Ends(fn, token, n)
    decreases n
  {
    match fn(token)
    case PageError(_) => []
    case Page(items, next) => [items] + if next == [] then [] else Pages(fn, next, n - 1)
  }

  ghost function ChainError<V>(fn: PaginationFn<V>, token: Token, n: nat): Option<Error>
    requires Ends(fn, token, n)
    decreases n
  {
    match fn(token)
    case PageError(e) => Some(e)
    case Page(_, next) => if next == [] then None else ChainError(fn, next, n - 1)
  }

  function Flatten<V>(pages: seq<seq<V>>): seq<V> {
    if pages == [] then [] else pages[0] + Flatten(pages[1..])
  }

  lemma ItemsConcat<V>(a: seq<V>, b: seq<V>)
    ensures Items(a + b) == Items(a) + Items(b)
  {
  }

  lemma PopItem<V>(vs: seq<V>, i: nat, rest: seq<Delivery<V>>)
    requires i < |vs|
    ensures Items(vs[i..]) + rest == [Item(vs[i])] + (Items(vs[i + 1..]) + rest)
  {
    assert vs[i..] == [vs[i]] + vs[i + 1..];
    ItemsConcat([vs[i]], vs[i + 1..]);
  }

  /** The deliveries are the concatenation of all pages, and after it the error, once, if there is
      one: nothing of an empty page, nothing lost, nothing after the error. */
  lemma {:induction false} DeliveriesAreAllPages<V>(fn: PaginationFn<V>, token: Token, n: nat)
    requires Ends(fn, token, n)
    ensures Deliveries(fn, token, n) ==
            Items(Flatten(Pages(fn, token, n)))
            + (match ChainError(fn, token, n) case None => [] case Some(e) => [Failed(e)])
    decreases n
  {
    match fn(token)
    case PageError(e) =>
    case Page(items, next) =>
      if next == [] {
        assert Flatten([items]) == items + Flatten([]);
        assert Flatten([items]) == items;
      } else {
        DeliveriesAreAllPages(fn, next, n - 1);
        var rest := Pages(fn, next, n - 1);
        assert ([items] + rest)[1..] == rest;
        ItemsConcat(items, Flatten(rest));
      }
  }

  /** The bound on the chain does not matter once it suffices. */
  lemma {:induction false} BoundIrrelevant<V>(fn: PaginationFn<V>, token: Token, n: nat, m: nat)
    requires Ends(fn, token, n) && Ends(fn, token, m)
    ensures Deliveries(fn, token, n) == Deliveries(fn, token, m)
    decreases n
  {
    if fn(token).Page? && fn(token).next != [] {
      BoundIrrelevant(fn, fn(token).next, n - 1, m - 1);
    }
  }

  class Pager<V> {
    const paginationFn: PaginationFn<V>
    var pageToken: Token
    var pageErr: Option<Error>
    var pageItems: seq<V>
    var nextPageItemIndex: nat
    ghost var bound: nat  // the rest of the chain ends within this many pages

    ghost predicate Valid()
      reads this
    {
      && nextPageItemIndex <= |pageItems|
      && (pageErr.Some? ==> pageItems == [] && pageToken == [])
      && (pageToken != [] ==> Ends(paginationFn, pageToken, bound))
    }

    /** What the iterator has yet to deliver. */
    ghost function Remaining(): seq<Delivery<V>>
      requires Valid()
      reads this
    {
      if pageErr.Some? then [Failed(pageErr.value)]
      else Items(pageItems[nextPageItemIndex..])
           + if pageToken == [] then [] else Deliveries(paginationFn, pageToken, bound)
    }

    /** Starts at the given token; NewPagingIterator passes the empty one. */
    constructor (paginationFn: PaginationFn<V>, token: Token, ghost bound: nat)
      requires Ends(paginationFn, token, bound)
      ensures Valid() && this.paginationFn == paginationFn
      ensures Remaining() == Deliveries(paginationFn, token, bound)
    {
      this.paginationFn := paginationFn;
      this.bound := bound;
      pageToken, pageErr, pageItems, nextPageItemIndex := token, None, [], 0;
      new;
      GetNextPage();
    }

    /** Reads the page the token names. */
    method GetNextPage()
      requires Ends(paginationFn, pageToken, bound)
      modifies this
      ensures Valid()
      ensures Remaining() == old(Deliveries(paginationFn, pageToken, bound))
      ensures pageToken != [] ==> bound < old(bound)
    {
      match paginationFn(pageToken) {
        case Page(items, next) =>
          pageItems, pageToken, pageErr := items, next, None;
          assert pageItems[0..] == items;
          bound := if next == [] then bound else bound - 1;
        case PageError(e) =>
          pageItems, pageToken, pageErr := [], [], Some(e);
      }
      nextPageItemIndex := 0;
    }

    /** Asking for more never loses anything, however often it is asked. */
    method HasNext() returns (r: bool)
      requires Valid()
      modifies this
      ensures Valid() && Remaining() == old(Remaining())
      ensures r <==> Remaining() != []
      ensures r ==> pageErr.Some? || nextPageItemIndex < |pageItems|
      decreases if pageToken == [] then 0 else bound + 1
    {
      if pageErr.Some? {
        return true;
      }
      if nextPageItemIndex < |pageItems| {
        return true;
      }
      if |pageToken| != 0 {
        assert Items(pageItems[nextPageItemIndex..]) == [];
        GetNextPage();
        r := HasNext();
        return;
      }
      return false;
    }

    /** Delivers the next item or error; with nothing left it panics, here `None`. */
    method Next() returns (r: Option<Delivery<V>>)
      requires Valid()
      modifies this
      ensures Valid()
      ensures r.None? <==> old(Remaining()) == []
      ensures r.Some? ==> old(Remaining()) == [r.value] + Remaining()
      ensures r.None? ==> Remaining() == []
    {
      var more := HasNext();
      if !more {
        return None;
      }
      if pageErr.Some? {
        var e := pageErr.value;
        pageErr := None;
        return Some(Failed(e));
      }
      var index := nextPageItemIndex;
      nextPageItemIndex := nextPageItemIndex + 1;
      PopItem(pageItems, index, if pageToken == [] then [] else Deliveries(paginationFn, pageToken, bound));
      return Some(Item(pageItems[index]));
    }
  }
}
