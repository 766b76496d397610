/** `SpellParser`: pulls a spell's name and description out of a codex page with two capture
    flags, folded over the page's parser events. */
module SpellParser {
  import opened Options
  import opened Text
  import opened Html

  /** The parser's fields: the captured texts and the two flags. */
  datatype Fields = Fields(name: string, description: string, captureDesc: bool, captureName: bool)

  /** A fresh `SpellParser`. */
  const Initial := Fields("", "", false, false)

  /** The attribute that marks the description block. */
  const DescriptionClass := Attr("class", Some("codex-page-description"))

  /** The attribute that marks the name block. */
  const NameClass := Attr("class", Some("herotext"))

  /** The two tags the parser reacts to. */
  predicate IsBlockTag(tag: string) {
    tag == "div" || tag == "h1"
  }

  /** `handle_starttag`: a `div`/`h1` carrying the description class turns on the description
      flag; otherwise one carrying the name class turns on the name flag. Nothing is ever
      turned off, and any other tag changes nothing. */
  function OnStartTag(f: Fields, tag: string, attrs: seq<Attr>): (r: Fields)
    ensures !IsBlockTag(tag) ==> r == f
    ensures r.name == f.name && r.description == f.description
    ensures r.captureDesc <==> f.captureDesc || (IsBlockTag(tag) && DescriptionClass in attrs)
    ensures r.captureName <==> f.captureName || (IsBlockTag(tag) && DescriptionClass !in attrs && NameClass in attrs)
  {
    if !IsBlockTag(tag) then f
    else if DescriptionClass in attrs then f.(captureDesc := true)
    else if NameClass in attrs then f.(captureName := true)
    else f
  }

  /** `handle_endtag`: closing a `div`/`h1` ends both captures; other tags change nothing. */
  function OnEndTag(f: Fields, tag: string): (r: Fields)
    ensures !IsBlockTag(tag) ==> r == f
    ensures IsBlockTag(tag) ==> !r.captureDesc && !r.captureName
    ensures r.name == f.name && r.description == f.description
  {
    if !IsBlockTag(tag) then f else f.(captureDesc := false, captureName := false)
  }

  /** `handle_data`: the stripped text replaces the name while the name is captured, else the
      description while that is captured; the flags stay as they are. */
  function OnData(f: Fields, text: string): (r: Fields)
    ensures r.captureDesc == f.captureDesc && r.captureName == f.captureName
    ensures f.captureName ==> r.name == Strip(text) && r.description == f.description
    ensures !f.captureName && f.captureDesc ==> r.description == Strip(text) && r.name == f.name
    ensures !f.captureName && !f.captureDesc ==> r == f
  {
    if f.captureName then f.(name := Strip(text))
    else if f.captureDesc then f.(description := Strip(text))
    else f
  }

  /** Dispatch of one event to its handler. */
  function OnEvent(f: Fields, e: Event): Fields {
    match e
    case StartTag(tag, attrs) => OnStartTag(f, tag, attrs)
    case EndTag(tag) => OnEndTag(f, tag)
    case Data(text) => OnData(f, text)
  }

  /** The parser's fields after its first `n` events. */
  function FeedPrefix(events: seq<Event>, n: nat): Fields
    requires n <= |events|
  {
    if n == 0 then Initial else OnEvent(FeedPrefix(events, n - 1), events[n - 1])
  }

  /** `parser.feed(text)` on a fresh parser, then `(parser.name, parser.description)`. */
  function ParseSpell(events: seq<Event>): (r: (string, string))
    ensures Trimmed(r.0) && Trimmed(r.1)
  {
    var f := FeedPrefix(events, |events|);
    FieldsStayTrimmed(events, |events|);
    (f.name, f.description)
  }

  /** Both fields only ever hold stripped text, or the initial `""`. */
  lemma {:induction false} FieldsStayTrimmed(events: seq<Event>, n: nat)
    requires n <= |events|
    ensures Trimmed(FeedPrefix(events, n).name) && Trimmed(FeedPrefix(events, n).description)
  {
    if n > 0 {
      FieldsStayTrimmed(events, n - 1);
      EventEffect(FeedPrefix(events, n - 1), events[n - 1]);
    }
  }

  // An independent account of the fold: which event opens or closes a capture, when a flag is
  // on, and which text ends up in each field.

  /** A `div`/`h1` start tag that turns the name flag on. */
  predicate OpensName(e: Event) {
    e.StartTag? && IsBlockTag(e.tag) && DescriptionClass !in e.attrs && NameClass in e.attrs
  }

  /** A `div`/`h1` start tag that turns the description flag on. */
  predicate OpensDescription(e: Event) {
    e.StartTag? && IsBlockTag(e.tag) && DescriptionClass in e.attrs
  }

  /** A `div`/`h1` end tag, which turns both flags off. */
  predicate Closes(e: Event) {
    e.EndTag? && IsBlockTag(e.tag)
  }

  /** No event strictly between positions `j` and `n` closes a block. */
  ghost predicate OpenThrough(events: seq<Event>, j: int, n: int) {
    forall k :: j < k < n && 0 <= k < |events| ==> !Closes(events[k])
  }

  /** Just before event `n`, the name flag is on: some earlier event opened it and no block has
      closed since. */
  ghost predicate NameOpen(events: seq<Event>, n: int) {
    exists j :: 0 <= j < n && j < |events| && OpensName(events[j]) && OpenThrough(events, j, n)
  }

  /** Just before event `n`, the description flag is on. */
  ghost predicate DescriptionOpen(events: seq<Event>, n: int) {
    exists j :: 0 <= j < n && j < |events| && OpensDescription(events[j]) && OpenThrough(events, j, n)
  }

  /** The flags after `n` events are on exactly when an opening tag came before and no block
      closed after it. */
  lemma {:induction false} FlagsAfter(events: seq<Event>, n: nat)
    requires n <= |events|
    ensures FeedPrefix(events, n).captureName <==> NameOpen(events, n)
    ensures FeedPrefix(events, n).captureDesc <==> DescriptionOpen(events, n)
  {
    if n > 0 {
      FlagsAfter(events, n - 1);
      var e := events[n - 1];
      if Closes(e) {
        forall j | 0 <= j < n - 1
          ensures !OpenThrough(events, j, n)
        {
          assert Closes(events[n - 1]);
        }
      } else {
        OpenExtends(events, n);
      }
    }
  }

  /** Across an event that closes nothing, a flag is on afterwards exactly when it was on
      before or that event opens it. */
  lemma OpenExtends(events: seq<Event>, n: nat)
    requires 0 < n <= |events| && !Closes(events[n - 1])
    ensures NameOpen(events, n) <==> NameOpen(events, n - 1) || OpensName(events[n - 1])
    ensures DescriptionOpen(events, n) <==> DescriptionOpen(events, n - 1) || OpensDescription(events[n - 1])
  {
    NameOpenExtends(events, n);
    DescriptionOpenExtends(events, n);
  }

  /** `OpenExtends` for the name flag. */
  lemma NameOpenExtends(events: seq<Event>, n: nat)
    requires 0 < n <= |events| && !Closes(events[n - 1])
    ensures NameOpen(events, n) <==> NameOpen(events, n - 1) || OpensName(events[n - 1])
  {
    if NameOpen(events, n - 1) {
      var j :| 0 <= j < n - 1 && OpensName(events[j]) && OpenThrough(events, j, n - 1);
      assert OpenThrough(events, j, n);
    }
    if OpensName(events[n - 1]) {
      assert OpenThrough(events, n - 1, n);
    }
    if NameOpen(events, n) {
      var j :| 0 <= j < n && OpensName(events[j]) && OpenThrough(events, j, n);
      if j < n - 1 {
        assert OpenThrough(events, j, n - 1);
      }
    }
  }

  /** `OpenExtends` for the description flag. */
  lemma DescriptionOpenExtends(events: seq<Event>, n: nat)
    requires 0 < n <= |events| && !Closes(events[n - 1])
    ensures DescriptionOpen(events, n) <==> DescriptionOpen(events, n - 1) || OpensDescription(events[n - 1])
  {
    if DescriptionOpen(events, n - 1) {
      var j :| 0 <= j < n - 1 && OpensDescription(events[j]) && OpenThrough(events, j, n - 1);
      assert OpenThrough(events, j, n);
    }
    if OpensDescription(events[n - 1]) {
      assert OpenThrough(events, n - 1, n);
    }
    if DescriptionOpen(events, n) {
      var j :| 0 <= j < n && OpensDescription(events[j]) && OpenThrough(events, j, n);
      if j < n - 1 {
        assert OpenThrough(events, j, n - 1);
      }
    }
  }

  /** Event `i` is text that arrives while the name flag is on. */
  predicate NameCaptured(events: seq<Event>, i: int) {
    0 <= i < |events| && events[i].Data? && FeedPrefix(events, i).captureName
  }

  /** Event `i` is text that arrives while only the description flag is on. */
  predicate DescriptionCaptured(events: seq<Event>, i: int) {
    0 <= i < |events| && events[i].Data? && !FeedPrefix(events, i).captureName && FeedPrefix(events, i).captureDesc
  }

  /** Text lands in a field exactly when an opening tag for it came earlier and no `div`/`h1`
      has closed since (for the description: and the name is not being captured). */
  lemma CapturedMeansOpen(events: seq<Event>, i: int)
    requires 0 <= i < |events|
    ensures NameCaptured(events, i) <==> events[i].Data? && NameOpen(events, i)
    ensures DescriptionCaptured(events, i) <==> events[i].Data? && !NameOpen(events, i) && DescriptionOpen(events, i)
  {
    FlagsAfter(events, i);
  }

  /** One event changes the name only when it is text arriving while the name flag is on, and
      the description only when it is text arriving while only the description flag is on. */
  lemma EventEffect(f: Fields, e: Event)
    ensures e.Data? && f.captureName ==> OnEvent(f, e).name == Strip(e.text)
    ensures !(e.Data? && f.captureName) ==> OnEvent(f, e).name == f.name
    ensures e.Data? && !f.captureName && f.captureDesc ==> OnEvent(f, e).description == Strip(e.text)
    ensures !(e.Data? && !f.captureName && f.captureDesc) ==> OnEvent(f, e).description == f.description
  {
  }

  /** Event `n - 1` sets the name exactly when its text is captured for the name, and the
      description exactly when its text is captured for the description. */
  lemma CaptureStep(events: seq<Event>, n: nat)
    requires 0 < n <= |events|
    ensures NameCaptured(events, n - 1) ==> FeedPrefix(events, n).name == Strip(events[n - 1].text)
    ensures !NameCaptured(events, n - 1) ==> FeedPrefix(events, n).name == FeedPrefix(events, n - 1).name
    ensures DescriptionCaptured(events, n - 1) ==> FeedPrefix(events, n).description == Strip(events[n - 1].text)
    ensures !DescriptionCaptured(events, n - 1) ==> FeedPrefix(events, n).description == FeedPrefix(events, n - 1).description
  {
    EventEffect(FeedPrefix(events, n - 1), events[n - 1]);
  }

  /** Event `i` is the last event before `n` whose text landed in the name. */
  predicate LastNameText(events: seq<Event>, i: int, n: int) {
    i < n && NameCaptured(events, i) && forall k :: i < k < n ==> !NameCaptured(events, k)
  }

  /** Event `i` is the last event before `n` whose text landed in the description. */
  predicate LastDescriptionText(events: seq<Event>, i: int, n: int) {
    i < n && DescriptionCaptured(events, i) && forall k :: i < k < n ==> !DescriptionCaptured(events, k)
  }

  /** With no text captured for the name before event `n`, the name is still empty. */
  lemma {:induction false} NameStaysEmpty(events: seq<Event>, n: nat)
    requires n <= |events|
    requires forall i :: 0 <= i < n ==> !NameCaptured(events, i)
    ensures FeedPrefix(events, n).name == ""
  {
    if n > 0 {
      NameStaysEmpty(events, n - 1);
      CaptureStep(events, n);
    }
  }

  /** The last captured name wins: after `n` events the name is the stripped text of the last
      event before `n` that landed in the name. */
  lemma {:induction false} LastNameWins(events: seq<Event>, i: int, n: nat)
    requires n <= |events|
    requires LastNameText(events, i, n)
    ensures FeedPrefix(events, n).name == Strip(events[i].text)
  {
    CaptureStep(events, n);
    if i < n - 1 {
      assert !NameCaptured(events, n - 1);
      LastNameWins(events, i, n - 1);
    }
  }

  /** With no text captured for the description before event `n`, it is still empty. */
  lemma {:induction false} DescriptionStaysEmpty(events: seq<Event>, n: nat)
    requires n <= |events|
    requires forall i :: 0 <= i < n ==> !DescriptionCaptured(events, i)
    ensures FeedPrefix(events, n).description == ""
  {
    if n > 0 {
      DescriptionStaysEmpty(events, n - 1);
      CaptureStep(events, n);
    }
  }

  /** The last captured description wins, in the same sense. */
  lemma {:induction false} LastDescriptionWins(events: seq<Event>, i: int, n: nat)
    requires n <= |events|
    requires LastDescriptionText(events, i, n)
    ensures FeedPrefix(events, n).description == Strip(events[i].text)
  {
    CaptureStep(events, n);
    if i < n - 1 {
      assert !DescriptionCaptured(events, n - 1);
      LastDescriptionWins(events, i, n - 1);
    }
  }

  /** `parse_spell_info`'s result: each field is the stripped text of the last event captured
      for it, or `""` when there was none. */
  lemma ParseSpellFields(events: seq<Event>)
    ensures (forall i :: 0 <= i < |events| ==> !NameCaptured(events, i)) ==> ParseSpell(events).0 == ""
    ensures forall i :: LastNameText(events, i, |events|) ==> ParseSpell(events).0 == Strip(events[i].text)
    ensures (forall i :: 0 <= i < |events| ==> !DescriptionCaptured(events, i)) ==> ParseSpell(events).1 == ""
    ensures forall i :: LastDescriptionText(events, i, |events|) ==> ParseSpell(events).1 == Strip(events[i].text)
  {
    var n := |events|;
    if forall i :: 0 <= i < n ==> !NameCaptured(events, i) {
      NameStaysEmpty(events, n);
    }
    forall i | LastNameText(events, i, n)
      ensures ParseSpell(events).0 == Strip(events[i].text)
    {
      LastNameWins(events, i, n);
    }
    if forall i :: 0 <= i < n ==> !DescriptionCaptured(events, i) {
      DescriptionStaysEmpty(events, n);
    }
    forall i | LastDescriptionText(events, i, n)
      ensures ParseSpell(events).1 == Strip(events[i].text)
    {
      LastDescriptionWins(events, i, n);
    }
  }
}
