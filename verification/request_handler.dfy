/** The middleware chain cursor: a de-duplicated list of middleware bean names, a default
    handler name and the offset of the middleware that handles the request next. A handler
    value is immutable here, so the clone `next()` makes is just a new value. */
module MiddlewareChain {
  import opened Wrappers
  import opened Strings
  import opened PhpArrays

  datatype RequestHandler = RequestHandler(middlewares: Entries<int, string>, defaultName: string, offset: int)

  /** `new RequestHandler($middleware, $default)`: duplicate names are dropped, each kept
      at the index of its first occurrence. */
  function New(middleware: seq<string>, defaultName: string): (h: RequestHandler)
    ensures h.offset == 0 && h.defaultName == defaultName
    ensures forall j :: 0 <= j < |middleware| ==>
              Get(h.middlewares, j) == (if FirstOccurrence(middleware, j) then Some(middleware[j]) else None)
    ensures forall x :: x in middleware <==> x in Values(h.middlewares)
    ensures forall p, q :: 0 <= p < q < |h.middlewares| ==> h.middlewares[p].1 != h.middlewares[q].1
  {
    var u := ArrayUnique(middleware);
    ArrayUniqueValues(middleware);
    forall j | 0 <= j < |middleware|
      ensures Get(u, j) == (if FirstOccurrence(middleware, j) then Some(middleware[j]) else None)
    {
      UniqueSlot(middleware, j);
    }
    RequestHandler(u, defaultName, 0)
  }

  /** `array_unique` keeps index `j` exactly when it is a first occurrence. */
  lemma UniqueSlot(xs: seq<string>, j: int)
    requires 0 <= j < |xs|
    ensures Get(ArrayUnique(xs), j) == (if FirstOccurrence(xs, j) then Some(xs[j]) else None)
  {
    var u := ArrayUnique(xs);
    if FirstOccurrence(xs, j) {
      assert (j, xs[j]) in u;
      var q :| 0 <= q < |u| && u[q] == (j, xs[j]);
      assert Get(u, j).Some? by {
        assert u[q].0 == j;
      }
      var p :| 0 <= p < |u| && u[p] == (j, Get(u, j).value);
      assert FirstOccurrence(xs, u[p].0) && u[p].1 == xs[u[p].0];
    } else {
      forall i | 0 <= i < |u| ensures u[i].0 != j {
        assert FirstOccurrence(xs, u[i].0);
      }
    }
  }

  /** `empty($this->middlewares[$this->offset])`. */
  predicate SlotEmpty(h: RequestHandler) {
    var slot := Get(h.middlewares, h.offset);
    slot.None? || PhpEmpty(slot.value)
  }

  /** The bean name `handle` looks up: the default for an empty slot when there is one,
      otherwise the slot itself (none when it is missing). */
  function Selected(h: RequestHandler): Option<string> {
    if SlotEmpty(h) && !PhpEmpty(h.defaultName) then Some(h.defaultName) else Get(h.middlewares, h.offset)
  }

  /** `next()`: a copy pointing one middleware further. */
  function Next(h: RequestHandler): (r: RequestHandler)
    ensures r.offset == h.offset + 1
    ensures r.middlewares == h.middlewares && r.defaultName == h.defaultName
  {
    h.(offset := h.offset + 1)
  }

  datatype HandleError = InvalidHandler   // \InvalidArgumentException('Invalid Handler')

  /** `handle($request)` up to the call: the middleware bean that processes the request and
      the handler it is given to continue the chain. `isMiddleware(name)` says whether the
      bean of that name is a `MiddlewareInterface`. */
  function Handle(h: RequestHandler, isMiddleware: string -> bool): (r: Result<(string, RequestHandler), HandleError>)
    ensures SlotEmpty(h) && !PhpEmpty(h.defaultName) ==>
              (r.Ok? <==> isMiddleware(h.defaultName)) && (r.Ok? ==> r.value.0 == h.defaultName)
    ensures !(SlotEmpty(h) && !PhpEmpty(h.defaultName)) ==>
              (r.Ok? <==> Get(h.middlewares, h.offset).Some? && isMiddleware(Get(h.middlewares, h.offset).value))
              && (r.Ok? ==> r.value.0 == Get(h.middlewares, h.offset).value)
    ensures r.Ok? ==> r.value.1 == Next(h)
    ensures r.Err? ==> r.error == InvalidHandler
  {
    match Selected(h)
    case None => Err(InvalidHandler)
    case Some(name) => if isMiddleware(name) then Ok((name, Next(h))) else Err(InvalidHandler)
  }

  /** The handler after `k` calls of `next()`. */
  function Advance(h: RequestHandler, k: nat): (r: RequestHandler)
    ensures r.offset == h.offset + k
    ensures r.middlewares == h.middlewares && r.defaultName == h.defaultName
  {
    if k == 0 then h else Next(Advance(h, k - 1))
  }

  /** Down the chain, the `k`-th handler runs the `k`-th given middleware when that is its
      first occurrence, and hands on the `k + 1`-th handler. */
  lemma ChainRunsInOrder(ms: seq<string>, defaultName: string, k: nat, isMiddleware: string -> bool)
    requires k < |ms| && FirstOccurrence(ms, k) && !PhpEmpty(ms[k]) && isMiddleware(ms[k])
    ensures Handle(Advance(New(ms, defaultName), k), isMiddleware) == Ok((ms[k], Advance(New(ms, defaultName), k + 1)))
  {
    var n := New(ms, defaultName);
    var h := Advance(n, k);
    assert Get(n.middlewares, k) == Some(ms[k]);
    assert h.middlewares == n.middlewares && h.offset == k;
    assert !SlotEmpty(h);
    assert Selected(h) == Some(ms[k]);
    assert Advance(n, k + 1) == Next(h);
  }

  /** A repeated middleware leaves a gap at its index, so that step of the chain runs the
      default handler instead. */
  lemma DuplicateRunsDefault(ms: seq<string>, defaultName: string, k: nat, isMiddleware: string -> bool)
    requires k < |ms| && !FirstOccurrence(ms, k) && !PhpEmpty(defaultName) && isMiddleware(defaultName)
    ensures Handle(Advance(New(ms, defaultName), k), isMiddleware) == Ok((defaultName, Advance(New(ms, defaultName), k + 1)))
  {
    var n := New(ms, defaultName);
    var h := Advance(n, k);
    assert Get(n.middlewares, k) == None;
    assert h.middlewares == n.middlewares && h.offset == k;
    assert Selected(h) == Some(defaultName);
  }

  /** Past the end of the chain with no default, handling fails. */
  lemma EndWithoutDefaultFails(ms: seq<string>, defaultName: string, isMiddleware: string -> bool)
    requires PhpEmpty(defaultName)
    ensures Handle(Advance(New(ms, defaultName), |ms|), isMiddleware) == Err(InvalidHandler)
  {
    var h := Advance(New(ms, defaultName), |ms|);
    assert Get(h.middlewares, |ms|).None? by {
      forall i | 0 <= i < |h.middlewares| ensures h.middlewares[i].0 != |ms| {
        assert FirstOccurrence(ms, h.middlewares[i].0);
      }
    }
  }

  // ---------------------------------------------------------------------------
  // insertMiddlewares

  function Min(a: int, b: int): int { if a < b then a else b }

  /** `insertMiddlewares($middlewares, $offset)` as written: the current middlewares are cut
      with `array_chunk` at the offset (the current one when none is given) and the new ones
      are put between the first two chunks; later chunks are not kept, and an offset below 1
      leaves only the new middlewares. */
  function InsertMiddlewares(h: RequestHandler, mws: seq<string>, offset: Option<int>): (r: RequestHandler)
    ensures r.defaultName == h.defaultName && r.offset == h.offset
    ensures r.middlewares == Indexed(Values(r.middlewares))
    ensures offset.GetOr(h.offset) < 1 ==> Values(r.middlewares) == mws
    ensures offset.GetOr(h.offset) >= 1 ==>
              var vals := Values(h.middlewares);
              var off := offset.GetOr(h.offset);
              Values(r.middlewares) == vals[..Min(off, |vals|)] + mws + vals[Min(off, |vals|)..Min(2 * off, |vals|)]
  {
    var off := offset.GetOr(h.offset);
    var vals := Values(h.middlewares);
    var chunks := ArrayChunk(vals, off);
    var before := if chunks.Some? && |chunks.value| > 0 then chunks.value[0] else [];
    var after := if chunks.Some? && |chunks.value| > 1 then chunks.value[1] else [];
    assert off >= 1 ==> before == vals[..Min(off, |vals|)] && after == vals[Min(off, |vals|)..Min(2 * off, |vals|)] by {
      if off >= 1 {
        FirstChunks(vals, off);
      }
    }
    assert off < 1 ==> before + mws + after == mws;
    h.(middlewares := Indexed(before + mws + after))
  }

  /** Inserting new middlewares at a position, keeping every current one: the intended
      effect of `insertMiddlewares`. */
  function InsertAt(h: RequestHandler, mws: seq<string>, offset: Option<int>): (r: RequestHandler)
    ensures r.defaultName == h.defaultName && r.offset == h.offset
    ensures r.middlewares == Indexed(Values(r.middlewares))
    ensures var vals := Values(h.middlewares);
            var k := if offset.GetOr(h.offset) < 0 then 0 else Min(offset.GetOr(h.offset), |vals|);
            |Values(r.middlewares)| == |vals| + |mws|
            && Values(r.middlewares)[k..k + |mws|] == mws
            && Values(r.middlewares)[..k] + Values(r.middlewares)[k + |mws|..] == vals
    ensures multiset(Values(r.middlewares)) == multiset(Values(h.middlewares)) + multiset(mws)
  {
    var vals := Values(h.middlewares);
    var off := offset.GetOr(h.offset);
    var k := if off < 0 then 0 else Min(off, |vals|);
    Splice(vals, mws, k);
    h.(middlewares := Indexed(vals[..k] + mws + vals[k..]))
  }

  /** Putting `mws` at position `k` of `vals`: the new values sit at `k`, the old ones
      around them, and nothing is lost. */
  lemma Splice<T>(vals: seq<T>, mws: seq<T>, k: int)
    requires 0 <= k <= |vals|
    ensures var ins := vals[..k] + mws + vals[k..];
            |ins| == |vals| + |mws|
            && ins[k..k + |mws|] == mws
            && ins[..k] + ins[k + |mws|..] == vals
            && multiset(ins) == multiset(vals) + multiset(mws)
  {
    var ins := vals[..k] + mws + vals[k..];
    assert ins[k..k + |mws|] == mws;
    assert ins[..k] == vals[..k] && ins[k + |mws|..] == vals[k..];
    TakeDrop(vals, k);
    calc {
      multiset(ins);
      multiset(vals[..k]) + multiset(mws) + multiset(vals[k..]);
      multiset(vals[..k] + vals[k..]) + multiset(mws);
    }
  }

  /** With no more than `offset` middlewares after the offset, the chunking keeps them all. */
  lemma InsertKeepsShortTail(h: RequestHandler, mws: seq<string>, offset: Option<int>)
    requires offset.GetOr(h.offset) >= 1 && |h.middlewares| <= 2 * offset.GetOr(h.offset)
    ensures InsertMiddlewares(h, mws, offset) == InsertAt(h, mws, offset)
  {
    var vals := Values(h.middlewares);
    var off := offset.GetOr(h.offset);
    var k := Min(off, |vals|);
    assert vals[k..Min(2 * off, |vals|)] == vals[k..];
    assert Values(InsertMiddlewares(h, mws, offset).middlewares) == Values(InsertAt(h, mws, offset).middlewares) by {
      var a := Values(InsertAt(h, mws, offset).middlewares);
      assert a == a[..k] + a[k..k + |mws|] + a[k + |mws|..];
      assert a[..k] == vals[..k] && a[k + |mws|..] == vals[k..] by {
        assert a[..k] + a[k + |mws|..] == vals;
      }
    }
  }

  /** The chunking loses middlewares: three middlewares `a, b, c` and one new `x` at offset 1
      give `a, x, b`; `c` is dropped, where inserting at the position gives `a, x, b, c`. */
  lemma InsertDropsTail(a: string, b: string, c: string, x: string, defaultName: string)
    ensures Values(InsertMiddlewares(RequestHandler(Indexed([a, b, c]), defaultName, 1), [x], None).middlewares) == [a, x, b]
    ensures Values(InsertAt(RequestHandler(Indexed([a, b, c]), defaultName, 1), [x], None).middlewares) == [a, x, b, c]
  {
    ChunkedThree(a, b, c, x, defaultName);
    InsertedThree(a, b, c, x, defaultName);
  }

  lemma ChunkedThree(a: string, b: string, c: string, x: string, defaultName: string)
    ensures Values(InsertMiddlewares(RequestHandler(Indexed([a, b, c]), defaultName, 1), [x], None).middlewares) == [a, x, b]
  {
    var vals := Values(Indexed([a, b, c]));
    assert vals == [a, b, c];
    SpliceAfterFirst(vals, a, b, c, x);
  }

  lemma InsertedThree(a: string, b: string, c: string, x: string, defaultName: string)
    ensures Values(InsertAt(RequestHandler(Indexed([a, b, c]), defaultName, 1), [x], None).middlewares) == [a, x, b, c]
  {
    var h := RequestHandler(Indexed([a, b, c]), defaultName, 1);
    var vals := Values(h.middlewares);
    assert vals == [a, b, c];
    assert Min(1, |vals|) == 1;
    InsertAtSplice(h, [x], None);
    SpliceAfterFirst(vals, a, b, c, x);
  }

  lemma SpliceAfterFirst<T>(vals: seq<T>, a: T, b: T, c: T, x: T)
    requires vals == [a, b, c]
    ensures vals[..1] + [x] + vals[1..] == [a, x, b, c]
    ensures vals[..1] + [x] + vals[1..2] == [a, x, b]
  {
    assert vals[..1] == [a] && vals[1..] == [b, c] && vals[1..2] == [b];
  }

  /** The middlewares after `InsertAt`: the current ones up to the position, the new ones,
      then the rest of the current ones. */
  lemma InsertAtSplice(h: RequestHandler, mws: seq<string>, offset: Option<int>)
    ensures var vals := Values(h.middlewares);
            var k := if offset.GetOr(h.offset) < 0 then 0 else Min(offset.GetOr(h.offset), |vals|);
            Values(InsertAt(h, mws, offset).middlewares) == vals[..k] + mws + vals[k..]
  {
    var vals := Values(h.middlewares);
    var k := if offset.GetOr(h.offset) < 0 then 0 else Min(offset.GetOr(h.offset), |vals|);
    var a := Values(InsertAt(h, mws, offset).middlewares);
    assert a == a[..k] + a[k..k + |mws|] + a[k + |mws|..];
    assert a[..k] == vals[..k] && a[k + |mws|..] == vals[k..] by {
      assert a[..k] + a[k + |mws|..] == vals;
      assert (a[..k] + a[k + |mws|..])[..k] == a[..k];
      assert (a[..k] + a[k + |mws|..])[k..] == a[k + |mws|..];
    }
  }

  /** At offset 0, which a freshly built handler has, every current middleware is dropped. */
  lemma InsertAtStartDropsAll(h: RequestHandler, mws: seq<string>)
    requires h.offset == 0
    ensures Values(InsertMiddlewares(h, mws, None).middlewares) == mws
    ensures Values(InsertAt(h, mws, None).middlewares) == mws + Values(h.middlewares)
  {
    var a := Values(InsertAt(h, mws, None).middlewares);
    assert a == a[0..|mws|] + a[|mws|..];
    assert a[..0] + a[|mws|..] == a[|mws|..];
  }
}
