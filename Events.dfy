/**
 * The event handlers of the HTML filter as a state machine over the events the
 * XML parser delivers, and a reference semantics that needs no stack.
 *
 * The handlers own three pieces of state: the output buffer, the stack of
 * "this open tag was suppressed" flags, and the flag of the last open tag.
 * `Run` folds the handlers over an event sequence; `Rendered` says, for each
 * event, what it contributes in terms of the source events alone.
 */
module Events {
  import opened Wrappers
  import opened ByteStrings
  import opened Policies

  datatype Event = Open(name: Bytes, attrs: Attrs) | Close(name: Bytes) | Text(content: Bytes)

  /** `output`, `empty_tags` (top of the stack last) and `empty`. */
  datatype State = State(output: Bytes, emptyTags: seq<bool>, empty: bool)

  /** An open tag is written exactly when the tag is allowed and its filtered attributes hold the required ones. */
  predicate OpenEmitted(h: Handlers, name: Bytes, attrs: Attrs)
  {
    h.tag.isAllowed(name, attrs) && h.attribute.hasRequiredAttributes(name, h.attribute.filter(name, attrs))
  }

  /** The markup of an emitted open tag: filtered attributes, then the forced ones, rendered. */
  function OpenMarkup(h: Handlers, name: Bytes, attrs: Attrs): Bytes
  {
    var filtered := h.attribute.filter(name, attrs);
    h.tag.openHtmlTag(name, h.attribute.toHtml(h.attribute.addAttributes(name, filtered)))
  }

  /** The markup appended for character data: no-break spaces become spaces, then it is escaped. */
  function TextMarkup(h: Handlers, content: Bytes): Bytes
  {
    h.escape(ReplaceNbsp(content))
  }

  /** `array_pop`'s result: `null` on an empty stack. */
  function Top(stack: seq<bool>): Option<bool>
  {
    if stack == [] then None else Some(stack[|stack| - 1])
  }

  /** The stack after `array_pop`, which leaves an empty stack empty. */
  function Pop(stack: seq<bool>): seq<bool>
  {
    if stack == [] then [] else stack[..|stack| - 1]
  }

  /** `! array_pop(...) && isAllowedTag(name)`: `null` and `false` both count as "not suppressed". */
  predicate CloseEmitted(h: Handlers, popped: Option<bool>, name: Bytes)
  {
    popped != Some(true) && h.tag.isAllowedTag(name)
  }

  function StartTagStep(h: Handlers, s: State, name: Bytes, attrs: Attrs): State
  {
    var emitted := OpenEmitted(h, name, attrs);
    State(if emitted then s.output + OpenMarkup(h, name, attrs) else s.output,
          s.emptyTags + [!emitted],
          !emitted)
  }

  function EndTagStep(h: Handlers, s: State, name: Bytes): State
  {
    State(if CloseEmitted(h, Top(s.emptyTags), name) then s.output + h.tag.closeHtmlTag(name) else s.output,
          Pop(s.emptyTags),
          s.empty)
  }

  function DataTagStep(h: Handlers, s: State, content: Bytes): State
  {
    s.(output := s.output + TextMarkup(h, content))
  }

  function Step(h: Handlers, s: State, e: Event): State
  {
    match e
    case Open(name, attrs) => StartTagStep(h, s, name, attrs)
    case Close(name) => EndTagStep(h, s, name)
    case Text(content) => DataTagStep(h, s, content)
  }

  /** The state after the handlers have seen every event of evs, in order. */
  function Run(h: Handlers, s: State, evs: seq<Event>): State
    decreases |evs|
  {
    if evs == [] then s else Step(h, Run(h, s, evs[..|evs| - 1]), evs[|evs| - 1])
  }

  function Opens(evs: seq<Event>): nat
    decreases |evs|
  {
    if evs == [] then 0 else Opens(evs[..|evs| - 1]) + (if evs[|evs| - 1].Open? then 1 else 0)
  }

  function Closes(evs: seq<Event>): nat
    decreases |evs|
  {
    if evs == [] then 0 else Closes(evs[..|evs| - 1]) + (if evs[|evs| - 1].Close? then 1 else 0)
  }

  /** No prefix of evs closes more elements than `depth` plus the ones it opened. */
  predicate NoUnderflow(depth: nat, evs: seq<Event>)
  {
    forall k :: 0 <= k <= |evs| ==> Closes(evs[..k]) <= depth + Opens(evs[..k])
  }

  /** Every close matches an earlier open and every open is closed. */
  predicate Balanced(evs: seq<Event>)
  {
    NoUnderflow(0, evs) && Opens(evs) == Closes(evs)
  }

  /** Running over a + b is running over a, then over b. */
  lemma {:induction false} RunConcat(h: Handlers, s: State, a: seq<Event>, b: seq<Event>)
    ensures Run(h, s, a + b) == Run(h, Run(h, s, a), b)
    decreases |b|
  {
    if b == [] {
      assert a + b == a;
    } else {
      var b' := b[..|b| - 1];
      assert (a + b)[..|a + b| - 1] == a + b';
      RunConcat(h, s, a, b');
    }
  }

  /** The handlers only append: the old buffer is a prefix of the new one. */
  lemma {:induction false} RunAppendsOnly(h: Handlers, s: State, evs: seq<Event>)
    ensures s.output <= Run(h, s, evs).output
    decreases |evs|
  {
    if evs != [] {
      RunAppendsOnly(h, s, evs[..|evs| - 1]);
    }
  }

  /**
   * A parse that stops early leaves what the handlers wrote for the events it
   * delivered, and that is a prefix of what the whole parse would write.
   */
  lemma PartialParseIsPrefix(h: Handlers, s: State, evs: seq<Event>, k: nat)
    requires k <= |evs|
    ensures s.output <= Run(h, s, evs[..k]).output <= Run(h, s, evs).output
  {
    assert evs == evs[..k] + evs[k..];
    RunConcat(h, s, evs[..k], evs[k..]);
    RunAppendsOnly(h, s, evs[..k]);
    RunAppendsOnly(h, Run(h, s, evs[..k]), evs[k..]);
  }

  /** Every prefix of a sequence that does not underflow does not underflow either. */
  lemma NoUnderflowInit(depth: nat, evs: seq<Event>)
    requires evs != [] && NoUnderflow(depth, evs)
    ensures NoUnderflow(depth, evs[..|evs| - 1])
  {
    var init := evs[..|evs| - 1];
    forall k | 0 <= k <= |init| ensures Closes(init[..k]) <= depth + Opens(init[..k]) {
      assert init[..k] == evs[..k];
    }
  }

  /**
   * While no prefix closes more than the start depth plus what it opened, the
   * stack depth is the start depth plus the opens minus the closes. When no
   * prefix closes more than it opened, the frames that were there at the start
   * also stay untouched beneath the new ones.
   */
  lemma {:induction false} RunDepth(h: Handlers, s: State, evs: seq<Event>)
    requires NoUnderflow(|s.emptyTags|, evs)
    ensures |Run(h, s, evs).emptyTags| + Closes(evs) == |s.emptyTags| + Opens(evs)
    ensures NoUnderflow(0, evs) ==> s.emptyTags <= Run(h, s, evs).emptyTags
    decreases |evs|
  {
    if evs != [] {
      var init := evs[..|evs| - 1];
      NoUnderflowInit(|s.emptyTags|, evs);
      if NoUnderflow(0, evs) {
        NoUnderflowInit(0, evs);
      }
      RunDepth(h, s, init);
      assert evs[..|evs|] == evs;
      var st := Run(h, s, init).emptyTags;
      if evs[|evs| - 1].Close? {
        assert Closes(evs) == Closes(init) + 1 && Opens(evs) == Opens(init);
        assert Closes(evs[..|evs|]) <= |s.emptyTags| + Opens(evs[..|evs|]);
        if NoUnderflow(0, evs) {
          assert Closes(evs[..|evs|]) <= Opens(evs[..|evs|]);
          assert s.emptyTags <= st[..|st| - 1];
        }
      }
    }
  }

  /** A balanced sequence leaves the stack exactly as it found it. */
  lemma BalancedRestoresStack(h: Handlers, s: State, evs: seq<Event>)
    requires Balanced(evs)
    ensures Run(h, s, evs).emptyTags == s.emptyTags
  {
    assert NoUnderflow(|s.emptyTags|, evs) by {
      forall k | 0 <= k <= |evs| ensures Closes(evs[..k]) <= |s.emptyTags| + Opens(evs[..k]) {
        assert Closes(evs[..k]) <= Opens(evs[..k]);
      }
    }
    RunDepth(h, s, evs);
  }

  /** The open source elements after e, given those open before it. */
  function Nest(open: seq<Event>, e: Event): seq<Event>
  {
    match e
    case Open(_, _) => open + [e]
    case Close(_) => if open == [] then [] else open[..|open| - 1]
    case Text(_) => open
  }

  /**
   * The source elements open after evs, innermost last. A close with none open
   * leaves none open, as `array_pop` on an empty array does.
   */
  function OpenElements(evs: seq<Event>): (r: seq<Event>)
    ensures forall i :: 0 <= i < |r| ==> r[i].Open?
    decreases |evs|
  {
    if evs == [] then [] else Nest(OpenElements(evs[..|evs| - 1]), evs[|evs| - 1])
  }

  /** The source element e had its open tag written. */
  predicate EventEmitted(h: Handlers, e: Event)
  {
    e.Open? && OpenEmitted(h, e.name, e.attrs)
  }

  /** The suppressed flag of each element in opens. */
  function Suppressed(h: Handlers, opens: seq<Event>): (r: seq<bool>)
    ensures |r| == |opens|
    decreases |opens|
  {
    if opens == [] then [] else Suppressed(h, opens[..|opens| - 1]) + [!EventEmitted(h, opens[|opens| - 1])]
  }

  /** A close tag is written exactly when the tag is allowed and the innermost open element, if any, had its open tag written. */
  predicate CloseWritten(h: Handlers, open: seq<Event>, name: Bytes)
  {
    h.tag.isAllowedTag(name) && (open == [] || EventEmitted(h, open[|open| - 1]))
  }

  /** What e contributes when the source elements in `open` are open around it. */
  function Piece(h: Handlers, open: seq<Event>, e: Event): Bytes
  {
    match e
    case Open(name, attrs) => if OpenEmitted(h, name, attrs) then OpenMarkup(h, name, attrs) else []
    case Close(name) => if CloseWritten(h, open, name) then h.tag.closeHtmlTag(name) else []
    case Text(content) => TextMarkup(h, content)
  }

  /** The markup for evs, event by event, with no stack of flags. */
  function Rendered(h: Handlers, evs: seq<Event>): Bytes
    decreases |evs|
  {
    if evs == [] then []
    else Rendered(h, evs[..|evs| - 1]) + Piece(h, OpenElements(evs[..|evs| - 1]), evs[|evs| - 1])
  }

  /** One handler call writes the event's reference piece and keeps the stack equal to the open elements' flags. */
  lemma StepIsPiece(h: Handlers, s: State, open: seq<Event>, e: Event)
    requires s.emptyTags == Suppressed(h, open)
    ensures Step(h, s, e).output == s.output + Piece(h, open, e)
    ensures Step(h, s, e).emptyTags == Suppressed(h, Nest(open, e))
  {
    match e
    case Open(name, attrs) => {
      assert (open + [e])[..|open|] == open;
      assert Suppressed(h, open + [e]) == s.emptyTags + [!OpenEmitted(h, name, attrs)];
    }
    case Close(_) => {
      if open != [] {
        var inner := open[..|open| - 1];
        assert s.emptyTags == Suppressed(h, inner) + [!EventEmitted(h, open[|open| - 1])];
        assert Top(s.emptyTags) == Some(!EventEmitted(h, open[|open| - 1]));
        assert Pop(s.emptyTags) == Suppressed(h, inner);
      }
    }
    case Text(_) => {}
  }

  /**
   * From an empty stack, the handlers write exactly the reference markup, and
   * their stack holds the suppressed flags of the source elements still open.
   */
  lemma {:induction false} RunIsRendered(h: Handlers, out: Bytes, empty: bool, evs: seq<Event>)
    ensures Run(h, State(out, [], empty), evs).output == out + Rendered(h, evs)
    ensures Run(h, State(out, [], empty), evs).emptyTags == Suppressed(h, OpenElements(evs))
    decreases |evs|
  {
    if evs != [] {
      var init, e := evs[..|evs| - 1], evs[|evs| - 1];
      var s0 := State(out, [], empty);
      RunIsRendered(h, out, empty, init);
      var st := Run(h, s0, init);
      var open := OpenElements(init);
      assert Run(h, s0, evs) == Step(h, st, e);
      assert Rendered(h, evs) == Rendered(h, init) + Piece(h, open, e);
      assert OpenElements(evs) == Nest(open, e);
      StepIsPiece(h, st, open, e);
    }
  }

  /**
   * The close tag of an element is written only if its open tag was: the
   * k-th event, a close, adds the close markup exactly when the tag is allowed
   * and the innermost open source element was emitted (or none is open).
   */
  lemma CloseFollowsOpen(h: Handlers, out: Bytes, empty: bool, evs: seq<Event>, k: nat)
    requires k < |evs| && evs[k].Close?
    ensures var s0 := State(out, [], empty);
            Run(h, s0, evs[..k + 1]).output
            == Run(h, s0, evs[..k]).output
               + (if CloseWritten(h, OpenElements(evs[..k]), evs[k].name) then h.tag.closeHtmlTag(evs[k].name) else [])
  {
    assert evs[..k + 1][..k] == evs[..k];
    RunIsRendered(h, out, empty, evs[..k]);
    RunIsRendered(h, out, empty, evs[..k + 1]);
  }

  /** Hence a close whose innermost open element was suppressed writes nothing. */
  lemma SuppressedOpenSuppressesClose(h: Handlers, out: Bytes, empty: bool, evs: seq<Event>, k: nat)
    requires k < |evs| && evs[k].Close?
    requires var open := OpenElements(evs[..k]); open != [] && !EventEmitted(h, open[|open| - 1])
    ensures Run(h, State(out, [], empty), evs[..k + 1]).output == Run(h, State(out, [], empty), evs[..k]).output
  {
    CloseFollowsOpen(h, out, empty, evs, k);
  }
}
