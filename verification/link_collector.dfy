/** `UrlParser`: collects the filtered `href` targets of `<a>` start tags on one page. */
module LinkCollector {
  import opened Options
  import opened Urls
  import opened UrlFilter
  import opened Html

  /** The reference `urljoin` receives for an attribute: its value, where a bare attribute
      (value `None`) acts like the empty reference, which resolves to the base itself. */
  function Reference(a: Attr): string {
    a.value.GetOr("")
  }

  /** Attribute `k` of `attrs` is an `href` whose filtered target is `url`. */
  predicate HrefTo(rules: Rules, resolve: Resolver, base: string, attrs: seq<Attr>, k: int, url: string) {
    && 0 <= k < |attrs|
    && attrs[k].name == "href"
    && FilterUrl(rules, resolve, base, Reference(attrs[k])) == Some(url)
  }

  /** The loop over `attrs` in `handle_starttag`: adds the filter result of every `href` that
      the filter accepts, in order, and nothing else. */
  function AddHrefs(rules: Rules, resolve: Resolver, base: string, found: set<string>, attrs: seq<Attr>): (r: set<string>)
    ensures forall url :: url in r <==> url in found || exists k :: HrefTo(rules, resolve, base, attrs, k, url)
    decreases |attrs|
  {
    if |attrs| == 0 then found
    else
      var a := attrs[0];
      var found' := if a.name != "href" then found
                    else match FilterUrl(rules, resolve, base, Reference(a))
                         case None => found
                         case Some(url) => found + {url};
      var r := AddHrefs(rules, resolve, base, found', attrs[1..]);
      assert forall url :: url in r ==> url in found || exists k :: HrefTo(rules, resolve, base, attrs, k, url) by {
        forall url | url in r && url !in found
          ensures exists k :: HrefTo(rules, resolve, base, attrs, k, url)
        {
          if url in found' {
            assert HrefTo(rules, resolve, base, attrs, 0, url);
          } else {
            var k :| HrefTo(rules, resolve, base, attrs[1..], k, url);
            assert HrefTo(rules, resolve, base, attrs, k + 1, url);
          }
        }
      }
      assert forall url :: (exists k :: HrefTo(rules, resolve, base, attrs, k, url)) ==> url in r by {
        forall url, k | HrefTo(rules, resolve, base, attrs, k, url)
          ensures url in r
        {
          if k > 0 {
            assert HrefTo(rules, resolve, base, attrs[1..], k - 1, url);
          }
        }
      }
      r
  }

  /** `UrlParser.handle_starttag(tag, attrs)`: only an `a` tag can add links, and it adds exactly
      the accepted targets of its `href` attributes. */
  function HandleStartTag(rules: Rules, resolve: Resolver, base: string, found: set<string>, tag: string, attrs: seq<Attr>): (r: set<string>)
    ensures tag != "a" ==> r == found
    ensures tag == "a" ==> forall url :: url in r <==> url in found || exists k :: HrefTo(rules, resolve, base, attrs, k, url)
  {
    if tag != "a" then found else AddHrefs(rules, resolve, base, found, attrs)
  }

  /** `found_links` after one event: end tags and text are ignored. */
  function HandleEvent(rules: Rules, resolve: Resolver, base: string, found: set<string>, e: Event): set<string> {
    match e
    case StartTag(tag, attrs) => HandleStartTag(rules, resolve, base, found, tag, attrs)
    case _ => found
  }

  /** Event `i` of `events` is an `<a>` start tag with an `href` whose filtered target is `url`. */
  ghost predicate LinkAt(rules: Rules, resolve: Resolver, base: string, events: seq<Event>, i: int, url: string) {
    && 0 <= i < |events|
    && events[i].StartTag? && events[i].tag == "a"
    && exists k :: HrefTo(rules, resolve, base, events[i].attrs, k, url)
  }

  /** `parse_links(base, text)`: `found_links` after feeding the page's events to a fresh
      `UrlParser`, exactly the accepted `href` targets of its `<a>` tags. */
  function CollectLinks(rules: Rules, resolve: Resolver, base: string, events: seq<Event>): (r: set<string>)
    ensures forall url :: url in r <==> exists i :: LinkAt(rules, resolve, base, events, i, url)
    decreases |events|
  {
    if |events| == 0 then {}
    else
      var prefix := events[..|events| - 1];
      var last := events[|events| - 1];
      var before := CollectLinks(rules, resolve, base, prefix);
      var r := HandleEvent(rules, resolve, base, before, last);
      assert forall url :: url in r ==> exists i :: LinkAt(rules, resolve, base, events, i, url) by {
        forall url | url in r
          ensures exists i :: LinkAt(rules, resolve, base, events, i, url)
        {
          if url in before {
            var i :| LinkAt(rules, resolve, base, prefix, i, url);
            assert LinkAt(rules, resolve, base, events, i, url);
          } else {
            assert LinkAt(rules, resolve, base, events, |events| - 1, url);
          }
        }
      }
      assert forall url :: (exists i :: LinkAt(rules, resolve, base, events, i, url)) ==> url in r by {
        forall url, i | LinkAt(rules, resolve, base, events, i, url)
          ensures url in r
        {
          if i < |events| - 1 {
            assert LinkAt(rules, resolve, base, prefix, i, url);
          }
        }
      }
      r
  }

  /** Every collected link is a URL the filter produced, so it satisfies every rule set. */
  lemma CollectedLinksPassFilter(rules: Rules, resolve: Resolver, base: string, events: seq<Event>, url: string)
    ensures url in CollectLinks(rules, resolve, base, events) ==>
              exists href :: FilterUrl(rules, resolve, base, href) == Some(url)
  {
    if url in CollectLinks(rules, resolve, base, events) {
      var i, k :| LinkAt(rules, resolve, base, events, i, url) && HrefTo(rules, resolve, base, events[i].attrs, k, url);
      assert FilterUrl(rules, resolve, base, Reference(events[i].attrs[k])) == Some(url);
    }
  }
}
