/** `UrlFilterer.filter_url`: resolve, defragment, then four rule checks in a fixed order. */
module UrlFilter {
  import opened Options
  import opened Text
  import opened Urls

  /** The four optional rule sets; `None` imposes no restriction on that axis. */
  datatype Rules = Rules(
    allowedDomains: Option<set<string>>,
    allowedSchemes: Option<set<string>>,
    allowedFiletypes: Option<set<string>>,
    blockedPhrases: Option<set<string>>)

  /** The rule set used when every axis is left unrestricted. */
  const Unrestricted := Rules(None, None, None, None)

  /** An allow-list lets `x` through: it is unset, or `x` is one of its members. */
  predicate Allows(allowed: Option<set<string>>, x: string) {
    allowed.None? || x in allowed.value
  }

  /** A block-list stops `url`: it is set and one of its phrases is a substring of `url`. */
  predicate Blocks(blocked: Option<set<string>>, url: string) {
    blocked.Some? && exists p :: p in blocked.value && Contains(url, p)
  }

  /** The file type the filter compares: the suffix of the path's last component. It is
      non-empty exactly when that name has a dot after its first character and does not end in
      a dot, and then it is the name's tail from its last dot. */
  function FileType(path: string): (r: string)
    ensures var n := FileName(path);
            r != "" <==> |n| > 0 && n[|n| - 1] != '.' && exists i :: 0 < i < |n| && n[i] == '.'
    ensures var n := FileName(path);
            r != "" ==> |r| >= 2 && r[0] == '.' && '.' !in r[1..] && |r| < |n| && r == n[|n| - |r|..]
    ensures '.' !in FileName(path) ==> r == ""
  {
    var name := FileName(path);
    DotlessHasNoSuffix(name);
    Suffix(name)
  }

  /** A name without a dot has no suffix. */
  lemma DotlessHasNoSuffix(name: string)
    ensures '.' !in name ==> Suffix(name) == ""
  {
  }

  /** `filter_url(base, href)`: the defragmented absolute URL when it passes every rule, else
      `None`. */
  function FilterUrl(rules: Rules, resolve: Resolver, base: string, href: string): (r: Option<string>)
    ensures var u := Defrag(resolve(base, href));
            && (rules.allowedSchemes.Some? && u.scheme !in rules.allowedSchemes.value ==> r == None)
            && (rules.allowedDomains.Some? && u.netloc !in rules.allowedDomains.value ==> r == None)
            && (rules.allowedFiletypes.Some? && FileType(u.path) !in rules.allowedFiletypes.value ==> r == None)
            && (rules.blockedPhrases.Some? && (exists p :: p in rules.blockedPhrases.value && Contains(Render(u), p)) ==> r == None)
            && (r.None? ==> !Allows(rules.allowedSchemes, u.scheme) || !Allows(rules.allowedDomains, u.netloc)
                            || !Allows(rules.allowedFiletypes, FileType(u.path)) || Blocks(rules.blockedPhrases, Render(u)))
            && (r.Some? ==> r.value == Render(u))
    ensures WellFormed(resolve(base, href)) && r.Some? ==>
              '#' !in r.value && Parse(r.value) == Some(Defrag(resolve(base, href)))
  {
    var joined := resolve(base, href);
    var url := Defrag(joined);
    assert WellFormed(joined) ==> '#' !in Render(url) && Parse(Render(url)) == Some(url) by {
      if WellFormed(joined) {
        DefragRoundTrip(joined);
      }
    }
    if !Allows(rules.allowedSchemes, url.scheme) then None
    else if !Allows(rules.allowedDomains, url.netloc) then None
    else if !Allows(rules.allowedFiletypes, FileType(url.path)) then None
    else if Blocks(rules.blockedPhrases, Render(url)) then None
    else Some(Render(url))
  }

  /** With no rule set, nothing is rejected: the result is exactly the joined, defragmented URL. */
  lemma UnrestrictedAcceptsAll(resolve: Resolver, base: string, href: string)
    ensures FilterUrl(Unrestricted, resolve, base, href) == Some(Render(Defrag(resolve(base, href))))
  {
  }

  /** A path whose last component has no suffix (a directory, `spells/`, `index`) passes a
      file-type rule only when `""` is one of the allowed types. */
  lemma ExtensionlessNeedsEmptyType(rules: Rules, resolve: Resolver, base: string, href: string)
    requires rules.allowedFiletypes.Some?
    requires '.' !in FileName(resolve(base, href).path)
    ensures FilterUrl(rules, resolve, base, href).Some? ==> "" in rules.allowedFiletypes.value
  {
  }

  /** The empty phrase is a substring of every URL, so blocking it rejects everything. */
  lemma EmptyPhraseBlocksAll(rules: Rules, resolve: Resolver, base: string, href: string)
    requires rules.blockedPhrases.Some? && "" in rules.blockedPhrases.value
    ensures FilterUrl(rules, resolve, base, href) == None
  {
    EmptyIsEverywhere(Render(Defrag(resolve(base, href))));
  }

  /** An accepted URL meets every rule that is set: allowed scheme, domain and file type, and
      none of the blocked phrases occurs in it. */
  lemma AcceptedMeetsEveryRule(rules: Rules, resolve: Resolver, base: string, href: string)
    requires FilterUrl(rules, resolve, base, href).Some?
    ensures var u := resolve(base, href);
            var url := FilterUrl(rules, resolve, base, href).value;
            && Allows(rules.allowedSchemes, u.scheme)
            && Allows(rules.allowedDomains, u.netloc)
            && Allows(rules.allowedFiletypes, FileType(u.path))
            && (rules.blockedPhrases.Some? ==> forall p :: p in rules.blockedPhrases.value ==> !Contains(url, p))
  {
  }

  /** The filter `main` builds for the codex crawl. */
  const CodexRules := Rules(Some({"playorna.com"}), Some({"http", "https"}), Some({".html", ".php", ""}),
                            Some({"lang", "releases/"}))

  /** Under the codex filter an accepted URL is an `http`/`https` address on `playorna.com`
      whose file type is `.html`, `.php` or none, and which mentions neither `lang` nor
      `releases/`; any URL mentioning `lang` is rejected. */
  lemma CodexRulesStayOnSite(resolve: Resolver, base: string, href: string)
    ensures var u := resolve(base, href);
            var r := FilterUrl(CodexRules, resolve, base, href);
            && (r.Some? ==> (u.scheme == "http" || u.scheme == "https") && u.netloc == "playorna.com"
                            && FileType(u.path) in {".html", ".php", ""}
                            && !Contains(r.value, "lang") && !Contains(r.value, "releases/"))
            && (Contains(Render(Defrag(u)), "lang") ==> r == None)
  {
    var r := FilterUrl(CodexRules, resolve, base, href);
    if r.Some? {
      var u := resolve(base, href);
      AcceptedMeetsEveryRule(CodexRules, resolve, base, href);
      CodexAllows(u.scheme, u.netloc, FileType(u.path), r.value);
    }
    CodexRejectsLang(resolve, base, href);
  }

  /** The codex rule sets spelled out. */
  lemma CodexAllows(scheme: string, netloc: string, filetype: string, url: string)
    requires Allows(CodexRules.allowedSchemes, scheme) && Allows(CodexRules.allowedDomains, netloc)
    requires Allows(CodexRules.allowedFiletypes, filetype)
    requires forall p :: p in CodexRules.blockedPhrases.value ==> !Contains(url, p)
    ensures (scheme == "http" || scheme == "https") && netloc == "playorna.com"
    ensures filetype in {".html", ".php", ""}
    ensures !Contains(url, "lang") && !Contains(url, "releases/")
  {
    assert "lang" in CodexRules.blockedPhrases.value && "releases/" in CodexRules.blockedPhrases.value;
  }

  /** The codex filter rejects every URL that mentions `lang`. */
  lemma CodexRejectsLang(resolve: Resolver, base: string, href: string)
    ensures Contains(Render(Defrag(resolve(base, href))), "lang") ==> FilterUrl(CodexRules, resolve, base, href) == None
  {
    assert "lang" in CodexRules.blockedPhrases.value;
  }
}
