/** The search box of the web front end: a query field with an auto-completion
    list. Typing asks the completion service for at most eight hits; the arrow
    keys move the highlighted choice and Enter opens it, or searches for the
    query when nothing is highlighted. The service and the browser location are
    outside the model: asking for completions and moving to a URL are effects
    the operations return. */
module SearchBox {
  import opened Results
  import Text

  /** One completion hit as the service returns it. */
  datatype Hit = Hit(queryHint: string, project: string, path: string, fileId: int, line: int)

  /** One entry of the completion list. */
  datatype Choice = Choice(index: nat, display: string, path: string, url: string)

  /** What the box asks of the outside world. */
  datatype Effect =
    | NoEffect
    | Complete(query: string, limit: nat)
    | Navigate(url: string)

  /** The scope of the directive. `choices` is absent until the first
      response arrives; `selected` is -1 when nothing is highlighted. */
  datatype State = State(
    loading: bool,
    visible: bool,
    selected: int,
    choices: Option<seq<Choice>>,
    query: string)

  /** How many hits a completion request asks for. */
  const CompletionLimit: nat := 8

  function Init(query: string): (s: State)
    ensures !s.loading && s.visible && s.selected == -1 && s.choices.None?
  {
    State(false, true, -1, None, query)
  }

  /** What holds between events: the highlight is -1 or an entry of the list,
      except that a response shorter than the highlight resets it to 0 even
      when the list is empty; without a list nothing is highlighted. */
  ghost predicate Inv(s: State)
  {
    s.selected >= -1
    && (s.choices.None? ==> s.selected == -1)
    && (s.choices.Some? ==> s.selected < |s.choices.value| || s.selected == 0)
  }

  lemma InitInv(query: string)
    ensures Inv(Init(query))
  {
  }

  /** The page a hit links to. */
  function SourceUrl(hit: Hit): string
  {
    "source/?file=" + Text.IntString(hit.fileId) + "&line=" + Text.IntString(hit.line)
  }

  /** The choices for the hits of a response, numbered from `start`. */
  function ChoicesFrom(hits: seq<Hit>, start: nat): (choices: seq<Choice>)
    ensures |choices| == |hits|
    ensures forall i :: 0 <= i < |hits| ==> choices[i] == Choice(start + i,
      hits[i].queryHint, hits[i].project + hits[i].path, SourceUrl(hits[i]))
  {
    if |hits| == 0 then []
    else
      var first := Choice(start, hits[0].queryHint, hits[0].project + hits[0].path, SourceUrl(hits[0]));
      [first] + ChoicesFrom(hits[1..], start + 1)
  }

  /** A changed query asks for completions, unless a request is still
      outstanding or the query is empty. */
  function Update(s: State): (r: (State, Effect))
    ensures r.1 != NoEffect <==> !s.loading && s.query != ""
    ensures r.1 != NoEffect ==> r.0 == s.(loading := true) && r.1 == Complete(s.query, CompletionLimit)
    ensures r.1 == NoEffect ==> r.0 == s
  {
    if s.loading then (s, NoEffect)
    else if s.query == "" then (s, NoEffect)
    else (s.(loading := true), Complete(s.query, CompletionLimit))
  }

  /** The response to a completion request: the list is replaced by the hits
      (none when the response carries no hits), a highlight past its end is
      reset to the first entry, and the request is no longer outstanding. */
  function Respond(s: State, hits: Option<seq<Hit>>): (r: State)
    ensures !r.loading && r.visible == s.visible && r.query == s.query
    ensures r.choices.Some?
    ensures hits.Some? ==> |r.choices.value| == |hits.value|
    ensures hits.Some? ==> forall i :: 0 <= i < |hits.value| ==>
      (r.choices.value[i].index == i && r.choices.value[i].url == SourceUrl(hits.value[i]))
    ensures hits.None? ==> r.choices.value == []
    ensures r.selected == if s.selected >= |r.choices.value| then 0 else s.selected
  {
    var choices := if hits.Some? then ChoicesFrom(hits.value, 0) else [];
    State(false, s.visible, if s.selected >= |choices| then 0 else s.selected, Some(choices), s.query)
  }

  /** Enter: the highlighted choice's page while the list is shown, otherwise
      the search page for the query. Reading the length of an absent list
      throws, which the short-circuit reaches only with a highlight. */
  function Search(s: State): (r: Result<Effect>)
    ensures r.Err? <==> s.visible && s.selected >= 0 && s.choices.None?
    ensures r.Ok? && s.visible && s.choices.Some? && 0 <= s.selected < |s.choices.value| ==>
      r.value == Navigate(s.choices.value[s.selected].url)
    ensures r.Ok? && !(s.visible && s.choices.Some? && 0 <= s.selected < |s.choices.value|) ==>
      r.value == Navigate("search?query=" + s.query)
  {
    if !s.visible || s.selected < 0 then Ok(Navigate("search?query=" + s.query))
    else if s.choices.None? then Err(TypeError)
    else if s.selected < |s.choices.value| then Ok(Navigate(s.choices.value[s.selected].url))
    else Ok(Navigate("search?query=" + s.query))
  }

  /** Up arrow: one entry up, down to -1 (nothing highlighted) and no further. */
  function MoveUp(s: State): (r: State)
    ensures r == s.(selected := r.selected)
    ensures r.selected == if s.selected >= 0 then s.selected - 1 else s.selected
  {
    if s.selected >= 0 then s.(selected := s.selected - 1) else s
  }

  /** Down arrow: one entry down while one is left; without a list it throws. */
  function MoveDown(s: State): (r: Result<State>)
    ensures r.Err? <==> s.choices.None?
    ensures r.Ok? ==> r.value == s.(selected := r.value.selected)
    ensures r.Ok? ==>
      (r.value.selected == if s.selected + 1 < |s.choices.value| then s.selected + 1 else s.selected)
  {
    if s.choices.None? then Err(TypeError)
    else if s.selected + 1 < |s.choices.value| then Ok(s.(selected := s.selected + 1))
    else Ok(s)
  }

  function Blur(s: State): (r: State)
    ensures !r.visible && r.(visible := s.visible) == s
  {
    s.(visible := false)
  }

  function Focus(s: State): (r: State)
    ensures r.visible && r.(visible := s.visible) == s
  {
    s.(visible := true)
  }

  /** The key codes the box reacts to. */
  const KeyUp: int := 38
  const KeyDown: int := 40
  const KeyEnter: int := 13

  /** A key press in the query field. */
  function OnKeyDown(s: State, keyCode: int): (r: Result<(State, Effect)>)
    ensures keyCode == KeyUp ==> r == Ok((MoveUp(s), NoEffect))
    ensures keyCode == KeyDown ==> (r.Err? <==> MoveDown(s).Err?)
    ensures keyCode == KeyDown && r.Ok? ==> r.value == (MoveDown(s).value, NoEffect)
    ensures keyCode == KeyEnter ==> (r.Err? <==> Search(s).Err?)
    ensures keyCode == KeyEnter && r.Ok? ==> r.value == (s, Search(s).value)
    ensures keyCode !in {KeyUp, KeyDown, KeyEnter} ==> r == Ok((s, NoEffect))
  {
    if keyCode == KeyUp then Ok((MoveUp(s), NoEffect))
    else if keyCode == KeyDown then
      var moved :- MoveDown(s);
      Ok((moved, NoEffect))
    else if keyCode == KeyEnter then
      var effect :- Search(s);
      Ok((s, effect))
    else Ok((s, NoEffect))
  }

  /** Everything that can happen to the box. `QueryChanged` is the watch on
      the query, which fires only when the text changed. */
  datatype Event =
    | QueryChanged(query: string)
    | Responded(hits: Option<seq<Hit>>)
    | KeyPressed(keyCode: int)
    | Blurred
    | Focused

  /** One event. Only a key press can throw; only a change of the query while
      no request is outstanding asks for completions; only Enter moves to
      another page; only a response changes the list. */
  function Step(s: State, e: Event): (r: Result<(State, Effect)>)
    ensures r.Err? ==> e.KeyPressed?
    ensures r.Ok? && r.value.1.Complete? ==> e.QueryChanged? && !s.loading && r.value.0.loading
    ensures r.Ok? && r.value.1.Navigate? ==> e == KeyPressed(KeyEnter)
    ensures r.Ok? && !e.Responded? ==> r.value.0.choices == s.choices
    ensures r.Ok? && !e.QueryChanged? ==> r.value.0.query == s.query
  {
    match e
    case QueryChanged(q) => if q == s.query then Ok((s, NoEffect)) else Ok(Update(s.(query := q)))
    case Responded(hits) => Ok((Respond(s, hits), NoEffect))
    case KeyPressed(code) => OnKeyDown(s, code)
    case Blurred => Ok((Blur(s), NoEffect))
    case Focused => Ok((Focus(s), NoEffect))
  }

  /** Runs the events in order. A handler that throws stops only itself: every
      throw happens before the handler changes the scope, so the state stays
      as it was and the next event is handled. */
  function Run(s: State, events: seq<Event>): (r: State)
    ensures (forall i :: 0 <= i < |events| ==> !events[i].Responded?) ==> r.choices == s.choices
    ensures (forall i :: 0 <= i < |events| ==> !events[i].QueryChanged?) ==> r.query == s.query
    decreases |events|
  {
    if |events| == 0 then s
    else
      var next := match Step(s, events[0]) case Ok(v) => v.0 case Err(_) => s;
      assert forall i :: 1 <= i < |events| ==> events[1..][i - 1] == events[i];
      Run(next, events[1..])
  }

  /** An event whose handler throws is lost without a trace. */
  lemma ThrowingEventIsSkipped(s: State, e: Event, rest: seq<Event>)
    requires Step(s, e).Err?
    ensures Run(s, [e] + rest) == Run(s, rest)
  {
    assert ([e] + rest)[1..] == rest;
  }

  /** Every event keeps the invariant. */
  lemma StepKeepsInv(s: State, e: Event)
    requires Inv(s) && Step(s, e).Ok?
    ensures Inv(Step(s, e).value.0)
  {
  }

  /** Between events the invariant always holds, whatever the events and
      whether or not some of them throw. */
  lemma {:induction false} RunKeepsInv(s: State, events: seq<Event>)
    requires Inv(s)
    ensures Inv(Run(s, events))
    decreases |events|
  {
    if |events| > 0 {
      var next := match Step(s, events[0]) case Ok(v) => v.0 case Err(_) => s;
      if Step(s, events[0]).Ok? {
        StepKeepsInv(s, events[0]);
      }
      RunKeepsInv(next, events[1..]);
    }
  }

  /** Under the invariant Enter never throws. */
  lemma SearchNeverThrows(s: State)
    requires Inv(s)
    ensures Search(s).Ok?
  {
  }

  /** Under the invariant only the down arrow before the first response throws. */
  lemma OnlyEarlyDownArrowThrows(s: State, e: Event)
    requires Inv(s)
    ensures Step(s, e).Err? <==> e == KeyPressed(KeyDown) && s.choices.None?
  {
  }

  /** While a request is outstanding no other is sent: after an update that
      asked for completions, a change to any query only records the text. */
  lemma OneOutstandingQuery(s: State, q: string)
    ensures Update(s).1.Complete? ==>
      Step(Update(s).0, QueryChanged(q)) == Ok((Update(s).0.(query := q), NoEffect))
  {
  }

  /** Up after down returns to the same entry when down moved. */
  lemma MoveDownThenUp(s: State)
    requires Inv(s) && MoveDown(s).Ok? && MoveDown(s).value != s
    ensures MoveUp(MoveDown(s).value) == s
  {
  }

  /** Down after up returns to the same entry when a real entry was
      highlighted. */
  lemma MoveUpThenDown(s: State)
    requires s.choices.Some? && 0 <= s.selected < |s.choices.value|
    ensures MoveDown(MoveUp(s)) == Ok(s)
  {
  }

  /** With a non-empty list, arrows keep the highlight on an entry or on -1. */
  lemma ArrowsStayInList(s: State)
    requires Inv(s) && s.choices.Some? && |s.choices.value| > 0
    ensures -1 <= MoveUp(s).selected < |s.choices.value|
    ensures MoveDown(s).Ok? && -1 <= MoveDown(s).value.selected < |s.choices.value|
  {
  }

  /** The highlighted choice after a response is the hit at that position. */
  lemma HighlightedChoiceIsHit(s: State, hits: seq<Hit>)
    requires Inv(s)
    requires Respond(s, Some(hits)).visible
    requires 0 <= Respond(s, Some(hits)).selected < |hits|
    ensures Search(Respond(s, Some(hits)))
      == Ok(Navigate(SourceUrl(hits[Respond(s, Some(hits)).selected])))
  {
  }
}
