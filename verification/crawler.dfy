/** The crawl engine of `Crawler` and `SpellReader`: admission through `on_found_links` and
    `put_todo`, and the workers' `todo.get()` / crawl / `task_done()` cycle, as a state machine
    whose steps the event loop may interleave in any order. */
module Crawler {
  import opened Options
  import opened Text
  import opened Html
  import SpellParser

  /** The pagination marker the base crawler's `put_todo` insists on. */
  const PageMarker := "?p="

  /** Which `put_todo` and `crawl` the crawler runs: the base link-discovering `Crawler`, or
      `SpellReader`, which fetches every address once per language and records spell fields. */
  datatype Variant = LinkCrawler | SpellReader(langs: seq<string>)

  /** The name and description `SpellParser` found on the page for one language. */
  datatype LangFields = LangFields(lang: string, name: string, description: string)

  /** One row of `SpellReader.entries`: an address and its fields in every language. */
  datatype Entry = Entry(url: string, fields: seq<LangFields>)

  /** The crawler's state. `seen`, `todo`, `total`, `limit`, `done` and `entries` are the
      fields of the Python `Crawler` class; `unfinished` is the queue's count of items put but not yet marked done;
      `active` holds the addresses workers have taken and not finished; `admitted` and
      `dequeued` record, in order, every address ever put on and taken off the queue. */
  datatype Crawl = Crawl(
    variant: Variant,
    workers: nat,
    limit: int,
    seen: set<string>,
    todo: seq<string>,
    total: nat,
    unfinished: nat,
    active: set<string>,
    done: set<string>,
    entries: seq<Entry>,
    admitted: seq<string>,
    dequeued: seq<string>)

  /** A freshly constructed crawler, before `run` seeds it. */
  function Init(variant: Variant, workers: nat, limit: int): (r: Crawl)
    ensures Inv(r) && r.unfinished == 0 && r.seen == {}
    ensures r.todo == [] && r.total == 0 && r.done == {} && r.active == {} && r.entries == []
    ensures r.variant == variant && r.workers == workers && r.limit == limit
  {
    var r := Crawl(variant, workers, limit, {}, [], 0, 0, {}, {}, [], [], []);
    assert Elements(r.admitted) == {} && Elements(r.dequeued) == {};
    r
  }

  // Sequences as the model uses them.

  /** No element occurs twice. */
  predicate Distinct(xs: seq<string>) {
    forall i, j :: 0 <= i < j < |xs| ==> xs[i] != xs[j]
  }

  /** The set of elements of `xs`. */
  function Elements(xs: seq<string>): set<string> {
    set x | x in xs
  }

  /** `xs` lists every element of `s` exactly once: one order in which Python may iterate `s`. */
  predicate Enumerates(xs: seq<string>, s: set<string>) {
    Distinct(xs) && Elements(xs) == s
  }

  /** A sequence has at least as many positions as distinct elements. */
  lemma {:induction false} ElementsBound(xs: seq<string>)
    ensures |Elements(xs)| <= |xs|
    ensures Distinct(xs) ==> |Elements(xs)| == |xs|
  {
    if |xs| > 0 {
      var rest := xs[1..];
      ElementsBound(rest);
      assert Elements(xs) == {xs[0]} + Elements(rest);
      if Distinct(xs) {
        assert xs[0] !in Elements(rest) by {
          forall k | 0 <= k < |rest| ensures rest[k] != xs[0] {
            assert rest[k] == xs[k + 1];
          }
        }
      }
    }
  }

  /** Only the empty sequence has no elements. */
  lemma NothingToList(xs: seq<string>)
    ensures Elements(xs) == {} ==> xs == []
  {
    if |xs| > 0 {
      assert xs[0] in Elements(xs);
    }
  }

  // Admission: put_todo and on_found_links.

  /** The variant's content test in `put_todo`: the base crawler admits only addresses that
      contain the pagination marker; `SpellReader` admits everything. */
  function Admissible(variant: Variant, url: string): (r: bool)
    ensures r <==> variant.SpellReader? || exists i :: OccursAt(url, PageMarker, i)
  {
    ContainsIffOccurs(url, PageMarker);
    variant.SpellReader? || Contains(url, PageMarker)
  }

  /** `put_todo(url)`: below the cap, an admissible address is put on the queue and counted;
      anything else leaves the crawler exactly as it was. */
  function PutTodo(c: Crawl, url: string): (r: Crawl)
    ensures r.total == c.total + 1 <==> c.total < c.limit && Admissible(c.variant, url)
    ensures r.total == c.total + 1 ==>
              r == c.(todo := c.todo + [url], total := c.total + 1, unfinished := c.unfinished + 1,
                      admitted := c.admitted + [url])
    ensures r.total != c.total + 1 ==> r == c
    ensures c.total <= c.limit ==> r.total <= r.limit
  {
    if c.total >= c.limit then c
    else if !Admissible(c.variant, url) then c
    else c.(todo := c.todo + [url], total := c.total + 1, unfinished := c.unfinished + 1,
            admitted := c.admitted + [url])
  }

  /** How many more addresses the cap lets in. */
  function Room(c: Crawl): nat {
    if c.total < c.limit then c.limit - c.total else 0
  }

  /** The admissible elements of `xs`, in order. */
  function Selected(variant: Variant, xs: seq<string>): (r: seq<string>)
    ensures |r| <= |xs|
    ensures forall x :: x in r ==> x in xs && Admissible(variant, x)
    ensures forall x :: x in xs && Admissible(variant, x) ==> x in r
    ensures Distinct(xs) ==> Distinct(r)
  {
    if |xs| == 0 then []
    else
      var rest := Selected(variant, xs[1..]);
      assert Distinct(xs) ==> xs[0] !in xs[1..] by {
        if Distinct(xs) {
          forall k | 0 <= k < |xs| - 1
            ensures xs[1..][k] != xs[0]
          {
            assert xs[1..][k] == xs[k + 1];
          }
        }
      }
      if Admissible(variant, xs[0]) then [xs[0]] + rest else rest
  }

  /** Selection keeps the order of the iteration: selecting from two pieces one after the
      other is selecting from their concatenation. */
  lemma {:induction false} SelectedAppend(variant: Variant, xs: seq<string>, ys: seq<string>)
    ensures Selected(variant, xs + ys) == Selected(variant, xs) + Selected(variant, ys)
    decreases |xs|
  {
    if |xs| == 0 {
      assert xs + ys == ys;
    } else {
      var zs := xs + ys;
      assert zs[0] == xs[0] && zs[1..] == xs[1..] + ys;
      SelectedAppend(variant, xs[1..], ys);
    }
  }

  /** A single address is selected exactly when it is admissible. */
  lemma SelectedOne(variant: Variant, x: string)
    ensures Selected(variant, [x]) == if Admissible(variant, x) then [x] else []
  {
    assert [x][1..] == [];
  }

  /** At most the first `n` elements of `xs`. */
  function FirstAtMost(xs: seq<string>, n: nat): (r: seq<string>)
    ensures |r| <= n && r <= xs
    ensures |xs| <= n ==> r == xs
  {
    if |xs| <= n then xs else xs[..n]
  }

  /** `c` after putting every element of `xs` on the queue. */
  function Enqueue(c: Crawl, xs: seq<string>): Crawl {
    c.(todo := c.todo + xs, total := c.total + |xs|, unfinished := c.unfinished + |xs|,
       admitted := c.admitted + xs)
  }

  /** What admitting the addresses of `order` one by one puts on the queue: the admissible ones,
      in order, cut off where the cap is reached. */
  function Admitted(c: Crawl, order: seq<string>): seq<string> {
    FirstAtMost(Selected(c.variant, order), Room(c))
  }

  /** The loop `for url in new: put_todo(url)`: its effect is to enqueue exactly the admissible
      addresses of `order` that fit under the cap, in order, and change nothing else. */
  function OfferAll(c: Crawl, order: seq<string>): (r: Crawl)
    ensures r == Enqueue(c, Admitted(c, order))
    decreases |order|
  {
    if |order| == 0 then c
    else
      var u := order[0];
      var c' := PutTodo(c, u);
      AdmittedStep(c, order);
      var r := OfferAll(c', order[1..]);
      if Room(c) > 0 && Admissible(c.variant, u) then
        EnqueueStep(c, u, Admitted(c', order[1..]));
        r
      else
        r
  }

  /** One address of the iteration: with no room left nothing is admitted; otherwise an
      admissible head is admitted ahead of the rest, whose room shrinks by one, and an
      inadmissible head is skipped. */
  lemma AdmittedStep(c: Crawl, order: seq<string>)
    requires |order| > 0
    ensures Room(c) == 0 ==> Admitted(c, order) == [] && PutTodo(c, order[0]) == c
    ensures Room(c) > 0 && Admissible(c.variant, order[0]) ==>
              Admitted(c, order) == [order[0]] + Admitted(PutTodo(c, order[0]), order[1..])
    ensures !Admissible(c.variant, order[0]) ==>
              Admitted(c, order) == Admitted(c, order[1..]) && PutTodo(c, order[0]) == c
  {
    var u := order[0];
    var rest := Selected(c.variant, order[1..]);
    if Room(c) > 0 && Admissible(c.variant, u) {
      var c' := PutTodo(c, u);
      assert Room(c') == Room(c) - 1;
      assert Selected(c.variant, order) == [u] + rest;
    }
  }

  /** Queuing one address and then a sequence is queuing their concatenation. */
  lemma EnqueueStep(c: Crawl, u: string, xs: seq<string>)
    requires c.total < c.limit && Admissible(c.variant, u)
    ensures Enqueue(PutTodo(c, u), xs) == Enqueue(c, [u] + xs)
  {
    assert c.todo + [u] + xs == c.todo + ([u] + xs);
    assert c.admitted + [u] + xs == c.admitted + ([u] + xs);
  }

  /** `on_found_links(urls)`, the Python set `urls - seen` being iterated in the order `order`:
      every address of `urls` becomes seen, and of the new ones exactly those `put_todo`
      accepts are queued, in that order. */
  function OnFoundLinks(c: Crawl, urls: set<string>, order: seq<string>): (r: Crawl)
    requires Enumerates(order, urls - c.seen)
    ensures r.seen == c.seen + urls
    ensures r.todo == c.todo + Admitted(c, order) && r.admitted == c.admitted + Admitted(c, order)
    ensures r.total == c.total + |Admitted(c, order)| && r.unfinished == c.unfinished + |Admitted(c, order)|
    ensures forall u :: u in Admitted(c, order) ==> u in urls && u !in c.seen && Admissible(c.variant, u)
    ensures c.total < c.limit - |Admitted(c, order)| ==>
              forall u :: u in urls && u !in c.seen && Admissible(c.variant, u) ==> u in Admitted(c, order)
    ensures r.variant == c.variant && r.workers == c.workers && r.limit == c.limit
            && r.active == c.active && r.done == c.done && r.entries == c.entries && r.dequeued == c.dequeued
  {
    var unseen := urls - c.seen;
    var marked := c.(seen := c.seen + unseen);
    assert Admitted(marked, order) == Admitted(c, order);
    AdmittedFacts(c, order);
    AdmittedComplete(c, order);
    assert forall u :: u in order <==> u in unseen;
    OfferAll(marked, order)
  }

  // Workers: taking an address, visiting it, acknowledging it.

  /** What a worker's `crawl(url)` turned out to do, as seen by the engine. */
  datatype Outcome =
    /** The fetch or the parsing raised; `process_one` swallows it. */
    | Raised
    /** The base crawler's `crawl` found `links` on the page; `order` is the order in which the
        new ones among them are iterated. */
    | Found(links: set<string>, order: seq<string>)
    /** `SpellReader.crawl` fetched the page once per language; `pages[i]` holds the parser
        events of the copy in the `i`-th language. */
    | Fetched(pages: seq<seq<Event>>)

  /** One scheduling step of the event loop. */
  datatype Step =
    /** Some idle worker's `await self.todo.get()` returns the head of the queue. */
    | Get
    /** The worker that took `url` finishes `crawl(url)` with `outcome` and calls `task_done()`. */
    | Finish(url: string, outcome: Outcome)

  /** The fields `SpellReader.crawl` records for one address, one per language. */
  function SpellFields(langs: seq<string>, pages: seq<seq<Event>>): (r: seq<LangFields>)
    requires |pages| == |langs|
    ensures |r| == |langs|
    ensures forall i :: 0 <= i < |r| ==>
              r[i] == LangFields(langs[i], SpellParser.ParseSpell(pages[i]).0, SpellParser.ParseSpell(pages[i]).1)
  {
    if |langs| == 0 then []
    else
      var (name, description) := SpellParser.ParseSpell(pages[0]);
      [LangFields(langs[0], name, description)] + SpellFields(langs[1..], pages[1..])
  }

  /** The outcome is one this crawler's `crawl` can produce here. */
  predicate Fits(c: Crawl, outcome: Outcome) {
    match outcome
    case Raised => true
    case Found(links, order) => c.variant.LinkCrawler? && Enumerates(order, links - c.seen)
    case Fetched(pages) => c.variant.SpellReader? && |pages| == |c.variant.langs|
  }

  /** The step can happen now: `get` needs an item and an idle worker; `task_done` concerns an
      address some worker holds. */
  predicate Enabled(c: Crawl, step: Step) {
    match step
    case Get => |c.todo| > 0 && |c.active| < c.workers
    case Finish(url, outcome) => url in c.active && c.unfinished > 0 && Fits(c, outcome)
  }

  /** The effect of `crawl(url)` ending with `outcome`: the base crawler admits the links it
      found and marks `url` done; `SpellReader` appends an entry; a raised error changes
      nothing. */
  function Visit(c: Crawl, url: string, outcome: Outcome): (r: Crawl)
    requires Fits(c, outcome)
    ensures c.seen <= r.seen && c.admitted <= r.admitted && r.todo == c.todo + r.admitted[|c.admitted|..]
    ensures r.unfinished == c.unfinished + (|r.admitted| - |c.admitted|)
    ensures r.total == c.total + (|r.admitted| - |c.admitted|)
    ensures forall u :: u in r.admitted[|c.admitted|..] ==> u !in c.seen && u in r.seen
    ensures r.variant == c.variant && r.workers == c.workers && r.limit == c.limit
            && r.active == c.active && r.dequeued == c.dequeued
    ensures r.done == c.done || r.done == c.done + {url}
    ensures Distinct(r.admitted[|c.admitted|..]) && |r.admitted| - |c.admitted| <= Room(c)
    ensures outcome.Raised? ==> r == c
    ensures outcome.Found? ==>
              && r.seen == c.seen + outcome.links && r.done == c.done + {url} && r.entries == c.entries
              && r.admitted[|c.admitted|..] == Admitted(c, outcome.order)
    ensures outcome.Fetched? ==>
              && r.entries == c.entries + [Entry(url, SpellFields(c.variant.langs, outcome.pages))]
              && r.done == c.done && r.seen == c.seen && r.todo == c.todo
  {
    match outcome
    case Raised => c
    case Found(links, order) =>
      var r := OnFoundLinks(c, links, order);
      assert r.admitted[|c.admitted|..] == Admitted(c, order);
      AdmittedFacts(c, order);
      r.(done := r.done + {url})
    case Fetched(pages) =>
      assert c.admitted[|c.admitted|..] == [];
      c.(entries := c.entries + [Entry(url, SpellFields(c.variant.langs, pages))])
  }

  /** One step of the crawl. A step that cannot happen now changes nothing. `Finish` always
      acknowledges: the address leaves the workers' hands and the queue's unfinished count
      drops by one, whatever the outcome. */
  function Next(c: Crawl, step: Step): (r: Crawl)
    ensures !Enabled(c, step) ==> r == c
    ensures r.variant == c.variant && r.workers == c.workers && r.limit == c.limit
    ensures c.seen <= r.seen && c.done <= r.done && c.admitted <= r.admitted && c.entries <= r.entries
    ensures Enabled(c, step) && step.Get? ==>
              && r.todo == c.todo[1..] && r.dequeued == c.dequeued + [c.todo[0]]
              && r.active == c.active + {c.todo[0]}
              && r.seen == c.seen && r.admitted == c.admitted && r.total == c.total
              && r.unfinished == c.unfinished && r.done == c.done && r.entries == c.entries
    ensures Enabled(c, step) && step.Finish? ==>
              && step.url !in r.active && r.unfinished + 1 == c.unfinished + (|r.admitted| - |c.admitted|)
              && var v := Visit(c, step.url, step.outcome);
                 && r.seen == v.seen && r.todo == v.todo && r.admitted == v.admitted && r.total == v.total
                 && r.done == v.done && r.entries == v.entries && r.dequeued == c.dequeued
                 && r.active == c.active - {step.url}
  {
    if !Enabled(c, step) then c
    else match step
      case Get =>
        var url := c.todo[0];
        c.(todo := c.todo[1..], active := c.active + {url}, dequeued := c.dequeued + [url])
      case Finish(url, outcome) =>
        var v := Visit(c, url, outcome);
        v.(active := v.active - {url}, unfinished := v.unfinished - 1)
  }

  /** The crawl after the steps `steps`, in order. */
  function Run(c: Crawl, steps: seq<Step>): (r: Crawl)
    ensures r.variant == c.variant && r.workers == c.workers && r.limit == c.limit
    decreases |steps|
  {
    if |steps| == 0 then c else Run(Next(c, steps[0]), steps[1..])
  }

  /** `run()`'s priming call `on_found_links(start_urls)` on a fresh crawler, `order` being the
      iteration order of the seed set. */
  function Start(variant: Variant, workers: nat, limit: int, seeds: set<string>, order: seq<string>): (r: Crawl)
    requires Enumerates(order, seeds)
    ensures r.seen == seeds
    ensures r.todo == r.admitted == Admitted(Init(variant, workers, limit), order)
  {
    OnFoundLinks(Init(variant, workers, limit), seeds, order)
  }

  // The invariant every reachable state keeps.

  /** The crawl's bookkeeping is consistent: every address was queued at most once and only
      after being seen; the counter counts the queue's admissions and respects the cap; the
      queue holds what was admitted and not yet taken; the unfinished count is what is queued
      plus what workers hold; no more workers are busy than exist; done addresses were taken
      and finished. */
  predicate Inv(c: Crawl) {
    && Distinct(c.admitted)
    && Elements(c.admitted) <= c.seen
    && c.total == |c.admitted|
    && (c.total <= c.limit || c.total == 0)
    && c.admitted == c.dequeued + c.todo
    && c.active <= Elements(c.dequeued)
    && c.unfinished == |c.todo| + |c.active|
    && |c.active| <= c.workers
    && c.done <= Elements(c.dequeued) - c.active
  }

  // Lemmas.

  /** A prefix of a sequence without repetitions has none either. */
  lemma DistinctPrefix(xs: seq<string>, n: nat)
    requires Distinct(xs) && n <= |xs|
    ensures Distinct(xs[..n])
  {
    assert forall i :: 0 <= i < n ==> xs[..n][i] == xs[i];
  }

  /** Two sequences without repetitions and without common elements concatenate to one
      without repetitions. */
  lemma DistinctConcat(a: seq<string>, b: seq<string>)
    requires Distinct(a) && Distinct(b)
    requires forall x :: x in b ==> x !in a
    ensures Distinct(a + b)
  {
    forall i, j | 0 <= i < j < |a + b|
      ensures (a + b)[i] != (a + b)[j]
    {
      if j >= |a| && i < |a| {
        assert (a + b)[j] == b[j - |a|] && b[j - |a|] in b;
        assert (a + b)[i] == a[i] && a[i] in a;
      }
    }
  }

  /** What one round of admission queues repeats nothing, fits in the room under the cap, and
      comes from the order iterated. */
  lemma AdmittedFacts(c: Crawl, order: seq<string>)
    requires Distinct(order)
    ensures Distinct(Admitted(c, order))
    ensures |Admitted(c, order)| <= Room(c)
    ensures forall u :: u in Admitted(c, order) ==> u in order && Admissible(c.variant, u)
  {
    var sel := Selected(c.variant, order);
    var added := Admitted(c, order);
    if |sel| > Room(c) {
      DistinctPrefix(sel, Room(c));
      assert forall u :: u in added ==> u in sel;
    }
  }

  /** When the round leaves room under the cap, it admitted every admissible address of the
      order. */
  lemma AdmittedComplete(c: Crawl, order: seq<string>)
    ensures c.total < c.limit - |Admitted(c, order)| ==>
              forall u :: u in order && Admissible(c.variant, u) ==> u in Admitted(c, order)
  {
    var sel := Selected(c.variant, order);
    if c.total < c.limit - |Admitted(c, order)| {
      assert |sel| <= Room(c);
    }
  }

  /** Taking a step keeps the invariant. */
  lemma NextInv(c: Crawl, step: Step)
    requires Inv(c)
    ensures Inv(Next(c, step))
  {
    if Enabled(c, step) {
      match step
      case Get => GetInv(c);
      case Finish(url, outcome) => FinishInv(c, url, outcome);
    }
  }

  /** The head of the queue has not been taken before and no worker holds it. */
  lemma HeadIsNew(c: Crawl)
    requires Inv(c) && |c.todo| > 0
    ensures c.todo[0] !in Elements(c.dequeued) && c.todo[0] !in c.active
  {
    var url := c.todo[0];
    assert c.admitted[|c.dequeued|] == url;
    forall k | 0 <= k < |c.dequeued|
      ensures c.dequeued[k] != url
    {
      assert c.dequeued[k] == c.admitted[k];
    }
  }

  /** A worker taking the head of the queue keeps the invariant. */
  lemma GetInv(c: Crawl)
    requires Inv(c) && Enabled(c, Get)
    ensures Inv(Next(c, Get))
  {
    var r := Next(c, Get);
    var url := c.todo[0];
    HeadIsNew(c);
    assert c.todo == [url] + c.todo[1..];
    assert r.admitted == r.dequeued + r.todo;
    assert Elements(r.dequeued) == Elements(c.dequeued) + {url};
    assert r.active == c.active + {url};
  }

  /** A worker finishing an address, whatever the outcome, keeps the invariant. */
  lemma FinishInv(c: Crawl, url: string, outcome: Outcome)
    requires Inv(c) && Enabled(c, Finish(url, outcome))
    ensures Inv(Next(c, Finish(url, outcome)))
  {
    FinishKeepsQueue(c, url, outcome);
    FinishKeepsWorkers(c, url, outcome);
  }

  /** Finishing keeps the queue's part of the invariant: what the visit admits is new, fits
      under the cap and joins the back of the queue. */
  lemma FinishKeepsQueue(c: Crawl, url: string, outcome: Outcome)
    requires Inv(c) && Enabled(c, Finish(url, outcome))
    ensures var r := Next(c, Finish(url, outcome));
            && Distinct(r.admitted)
            && Elements(r.admitted) <= r.seen
            && r.total == |r.admitted|
            && (r.total <= r.limit || r.total == 0)
            && r.admitted == r.dequeued + r.todo
  {
    var v := Visit(c, url, outcome);
    var added := v.admitted[|c.admitted|..];
    assert v.admitted == c.admitted + added;
    AppendKeepsQueue(c, v, added);
    assert Next(c, Finish(url, outcome)) == v.(active := v.active - {url}, unfinished := v.unfinished - 1);
  }

  /** Appending new, distinct addresses that fit under the cap to both the admission record
      and the queue keeps the queue's part of the invariant. */
  lemma AppendKeepsQueue(c: Crawl, v: Crawl, added: seq<string>)
    requires Inv(c)
    requires v.admitted == c.admitted + added && v.todo == c.todo + added && v.dequeued == c.dequeued
    requires c.seen <= v.seen && v.total == c.total + |added| && v.limit == c.limit
    requires Distinct(added) && |added| <= Room(c)
    requires forall u :: u in added ==> u !in c.seen && u in v.seen
    ensures Distinct(v.admitted) && Elements(v.admitted) <= v.seen && v.total == |v.admitted|
    ensures v.total <= v.limit || v.total == 0
    ensures v.admitted == v.dequeued + v.todo
  {
    DistinctConcat(c.admitted, added);
    assert c.dequeued + c.todo + added == c.dequeued + (c.todo + added);
  }

  /** Finishing keeps the workers' part of the invariant: the address leaves the busy set, the
      unfinished count follows, and a done address is no longer held. */
  lemma FinishKeepsWorkers(c: Crawl, url: string, outcome: Outcome)
    requires Inv(c) && Enabled(c, Finish(url, outcome))
    ensures var r := Next(c, Finish(url, outcome));
            && r.dequeued == c.dequeued
            && r.active == c.active - {url}
            && r.active <= Elements(r.dequeued)
            && r.unfinished == |r.todo| + |r.active|
            && |r.active| <= r.workers
            && r.done <= Elements(r.dequeued) - r.active
  {
    var r := Next(c, Finish(url, outcome));
    assert |r.active| == |c.active| - 1;
  }

  /** Any sequence of steps keeps the invariant. */
  lemma {:induction false} RunInv(c: Crawl, steps: seq<Step>)
    requires Inv(c)
    ensures Inv(Run(c, steps))
    decreases |steps|
  {
    if |steps| > 0 {
      NextInv(c, steps[0]);
      RunInv(Next(c, steps[0]), steps[1..]);
    }
  }

  /** A freshly seeded crawler satisfies the invariant. */
  lemma StartInv(variant: Variant, workers: nat, limit: int, seeds: set<string>, order: seq<string>)
    requires Enumerates(order, seeds)
    ensures Inv(Start(variant, workers, limit, seeds, order))
  {
    var c := Init(variant, workers, limit);
    AdmittedFacts(c, order);
  }

  /** Over a whole crawl, no address is queued twice and none is taken off the queue twice;
      the counter never passes the cap, and only addresses taken and finished are done. */
  lemma CrawlNeverRepeats(variant: Variant, workers: nat, limit: int, seeds: set<string>,
                          order: seq<string>, steps: seq<Step>)
    requires Enumerates(order, seeds)
    ensures var c := Run(Start(variant, workers, limit, seeds, order), steps);
            && Distinct(c.admitted) && Distinct(c.dequeued)
            && c.total == |c.admitted| && (c.total <= limit || c.total == 0)
            && c.done <= c.seen && |c.done| <= c.total
  {
    StartInv(variant, workers, limit, seeds, order);
    var c := Run(Start(variant, workers, limit, seeds, order), steps);
    RunInv(Start(variant, workers, limit, seeds, order), steps);
    InvConsequences(c);
  }

  /** What the invariant says about repetition and about the done set. */
  lemma InvConsequences(c: Crawl)
    requires Inv(c)
    ensures Distinct(c.dequeued) && c.done <= c.seen && |c.done| <= c.total
  {
    DistinctPrefix(c.admitted, |c.dequeued|);
    assert c.admitted[..|c.dequeued|] == c.dequeued;
    ElementsBound(c.dequeued);
    SubsetSize(c.done, Elements(c.dequeued));
    assert Elements(c.dequeued) <= Elements(c.admitted);
  }

  /** A subset is no larger than its superset. */
  lemma SubsetSize(a: set<string>, b: set<string>)
    requires a <= b
    ensures |a| <= |b|
  {
    assert b == a + (b - a);
  }

  /** A step never forgets a seen address and queues only addresses it had not seen before. */
  lemma NextGrows(c: Crawl, step: Step, u: string)
    ensures u in c.seen ==> u in Next(c, step).seen
    ensures u in c.seen && u !in c.admitted ==> u !in Next(c, step).admitted
  {
  }

  /** An address that was seen but not queued (the cap was reached, or it lacked the marker) is
      never queued later, whatever the crawl does next. */
  lemma {:induction false} RejectedStaysRejected(c: Crawl, steps: seq<Step>, u: string)
    requires u in c.seen && u !in c.admitted
    ensures u in Run(c, steps).seen && u !in Run(c, steps).admitted
    decreases |steps|
  {
    if |steps| > 0 {
      NextGrows(c, steps[0], u);
      RejectedStaysRejected(Next(c, steps[0]), steps[1..], u);
    }
  }

  /** Over any run nothing is forgotten: seen and done addresses, the admission log and the
      recorded entries only accumulate. */
  lemma {:induction false} RunGrows(c: Crawl, steps: seq<Step>)
    ensures var r := Run(c, steps);
            c.seen <= r.seen && c.done <= r.done && c.admitted <= r.admitted && c.entries <= r.entries
    decreases |steps|
  {
    if |steps| > 0 {
      RunGrows(Next(c, steps[0]), steps[1..]);
    }
  }

  /** A base crawl that finishes having found `links` has made every one of them seen, marked
      its own address done and released it, and left every other worker busy. */
  lemma FinishFoundMarksDone(c: Crawl, url: string, links: set<string>, order: seq<string>)
    requires Enabled(c, Finish(url, Found(links, order)))
    ensures var r := Next(c, Finish(url, Found(links, order)));
            && links <= r.seen && url in r.done && url !in r.active && r.active == c.active - {url}
            && r.admitted[|c.admitted|..] == Admitted(c, order)
  {
  }

  /** `on_found_links` twice with the same set: the second call finds nothing new, so the only
      order it can iterate is the empty one, and it changes nothing. */
  lemma OnFoundLinksIdempotent(c: Crawl, urls: set<string>, order: seq<string>)
    requires Enumerates(order, urls - c.seen)
    ensures var c' := OnFoundLinks(c, urls, order);
            && (forall o :: Enumerates(o, urls - c'.seen) ==> o == [])
            && OnFoundLinks(c', urls, []) == c'
  {
    var c' := OnFoundLinks(c, urls, order);
    assert urls - c'.seen == {};
    forall o | Enumerates(o, urls - c'.seen)
      ensures o == []
    {
      NothingToList(o);
    }
    assert c'.(seen := c'.seen + (urls - c'.seen)) == c';
  }

  /** `todo.join()` returns exactly when nothing is queued and no worker holds an address. */
  lemma JoinMeansIdle(c: Crawl)
    requires Inv(c)
    ensures c.unfinished == 0 <==> |c.todo| == 0 && c.active == {}
  {
  }

  /** While `join()` is still waiting and there is at least one worker, some step can happen:
      a worker can take the head of the queue, or a busy worker can finish. */
  lemma Progress(c: Crawl)
    requires Inv(c) && c.workers >= 1 && c.unfinished > 0
    ensures Enabled(c, Get) || exists url :: Enabled(c, Finish(url, Raised))
  {
    if c.active != {} {
      var u :| u in c.active;
      assert Enabled(c, Finish(u, Raised));
    }
  }

  /** With no worker nothing ever happens: no step is enabled, so every run leaves the crawl
      as it is, and `join()` waits forever once anything is unfinished. */
  lemma {:induction false} NoWorkerStalls(c: Crawl, steps: seq<Step>)
    requires c.workers == 0 && c.active == {}
    ensures Run(c, steps) == c
    decreases |steps|
  {
    if |steps| > 0 {
      assert !Enabled(c, steps[0]);
      NoWorkerStalls(Next(c, steps[0]), steps[1..]);
    }
  }

  /** A bound on the work left: three per address the cap still lets in, two per queued
      address, one per address a worker holds. */
  function Measure(c: Crawl): nat {
    3 * Room(c) + 2 * |c.todo| + |c.active|
  }

  /** Every step that can happen brings the crawl strictly closer to its end. */
  lemma StepDecreases(c: Crawl, step: Step)
    requires Inv(c) && Enabled(c, step)
    ensures Measure(Next(c, step)) < Measure(c)
  {
    var r := Next(c, step);
    match step
    case Get =>
      var url := c.todo[0];
      assert c.admitted[|c.dequeued|] == url;
      assert url !in c.active by {
        forall k | 0 <= k < |c.dequeued| ensures c.dequeued[k] != url {
          assert c.dequeued[k] == c.admitted[k];
        }
      }
      assert |r.active| == |c.active| + 1;
    case Finish(url, outcome) =>
      var v := Visit(c, url, outcome);
      var k := |v.admitted| - |c.admitted|;
      assert |r.active| == |c.active| - 1;
      assert Room(r) == Room(c) - k;
  }

  /** Every step of the sequence can happen when its turn comes. */
  predicate AllEnabled(c: Crawl, steps: seq<Step>)
    decreases |steps|
  {
    |steps| == 0 || (Enabled(c, steps[0]) && AllEnabled(Next(c, steps[0]), steps[1..]))
  }

  /** The crawl terminates: no sequence of steps that can each happen is longer than the
      measure of the state it starts from. */
  lemma {:induction false} CrawlTerminates(c: Crawl, steps: seq<Step>)
    requires Inv(c) && AllEnabled(c, steps)
    ensures |steps| <= Measure(c)
    decreases |steps|
  {
    if |steps| > 0 {
      StepDecreases(c, steps[0]);
      NextInv(c, steps[0]);
      CrawlTerminates(Next(c, steps[0]), steps[1..]);
    }
  }

  /** `SpellReader` admits every address: nothing is filtered out. */
  lemma {:induction false} SelectedKeepsAll(langs: seq<string>, xs: seq<string>)
    ensures Selected(SpellReader(langs), xs) == xs
    decreases |xs|
  {
    if |xs| > 0 {
      SelectedKeepsAll(langs, xs[1..]);
    }
  }

  /** `SpellReader` sets its cap to the length of its address list, so seeding it queues every
      distinct address, in the order the seed set is iterated. */
  lemma SpellReaderQueuesEverySeed(langs: seq<string>, workers: nat, urls: seq<string>, order: seq<string>)
    requires Enumerates(order, Elements(urls))
    ensures Start(SpellReader(langs), workers, |urls|, Elements(urls), order).todo == order
  {
    SelectedKeepsAll(langs, order);
    ElementsBound(urls);
    ElementsBound(order);
  }

  /** In the base crawler, seeds without the pagination marker are seen but never queued: if no
      seed has it, `join()` returns at once and nothing is visited. */
  lemma UnmarkedSeedsAreNeverQueued(workers: nat, limit: int, seeds: set<string>, order: seq<string>)
    requires Enumerates(order, seeds)
    requires forall u :: u in seeds ==> !Contains(u, PageMarker)
    ensures var c := Start(LinkCrawler, workers, limit, seeds, order);
            c.seen == seeds && c.todo == [] && c.unfinished == 0
  {
    var sel := Selected(LinkCrawler, order);
    assert Elements(sel) == {};
    NothingToList(sel);
  }

  /** An address without `?` cannot contain the marker. */
  lemma NoQuestionMarkNoMarker(s: string)
    requires '?' !in s
    ensures !Contains(s, PageMarker)
  {
    ContainsIffOccurs(s, PageMarker);
    forall i | 0 <= i && i + 3 <= |s|
      ensures !OccursAt(s, PageMarker, i)
    {
      assert s[i] in s && s[i..i + 3][0] == s[i];
    }
  }

  /** The cap bounds admissions, not discoveries: with a cap of one and two marked seeds, both
      seeds are seen but only the first is queued. */
  lemma SeenMayPassTheCap(workers: nat)
    ensures var c := Start(LinkCrawler, workers, 1, {"?p=1", "?p=2"}, ["?p=1", "?p=2"]);
            |c.seen| == 2 && c.total == 1 && c.todo == ["?p=1"]
  {
    var a, b := "?p=1", "?p=2";
    assert a[3] != b[3];
    assert Elements([a, b]) == {a, b};
    assert Contains(a, PageMarker) && Contains(b, PageMarker) by {
      assert PageMarker <= a && PageMarker <= b;
    }
    var c := Init(LinkCrawler, workers, 1);
    assert Selected(LinkCrawler, [a, b]) == [a, b];
    assert Admitted(c, [a, b]) == [a];
  }
}
