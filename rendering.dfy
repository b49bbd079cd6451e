/**
 * The residual context as output: what CLImate is asked to print, one event per call, and a
 * parser that reads the context back from the events.
 */
module Rendering {
  import opened Results
  import opened Context

  /**
   * One call on the console: `tab(width)`; `{style}()->inline(text)`, printed without a line
   * break; or `{style}(text)`, printed as a whole line.
   */
  datatype Event = Tab(width: nat) | Inline(style: string, text: string) | Line(style: string, text: string)

  /** The entries of `ctx`, depth first, at `indent`, styled by `level`. */
  function Render(level: string, ctx: seq<Entry>, indent: nat): seq<Event>
    decreases ctx
  {
    if ctx == [] then [] else EntryEvents(level, ctx[0], indent) + Render(level, ctx[1..], indent)
  }

  /**
   * One entry: the indentation and "key: " inline, then either the scalar's text as a line, or a
   * "[" line, the nested entries one tab further in, and a "]" line at the entry's indentation.
   */
  function EntryEvents(level: string, e: Entry, indent: nat): seq<Event>
    decreases e
  {
    [Tab(indent), Inline(level, e.key + ": ")] +
    match e.val
    case Scalar(s) => [Line(level, s)]
    case Array(es) => [Line(level, "[")] + Render(level, es, indent + 1) + [Tab(indent), Line(level, "]")]
  }

  /** The number of events the entries produce, from their shape alone. */
  function EventCount(ctx: seq<Entry>): nat
    decreases ctx
  {
    if ctx == [] then 0 else EntryEventCount(ctx[0]) + EventCount(ctx[1..])
  }

  /** Three events for a scalar; five plus the nested entries' events for an array. */
  function EntryEventCount(e: Entry): nat
    decreases e
  {
    match e.val
    case Scalar(_) => 3
    case Array(es) => 5 + EventCount(es)
  }

  /** An event printed for entries at `indent` or deeper, styled by `level`. */
  predicate StyledAt(ev: Event, level: string, indent: nat)
  {
    match ev
    case Tab(w) => w >= indent
    case Inline(style, _) => style == level
    case Line(style, _) => style == level
  }

  /** Rendering two runs of entries one after the other is rendering them together. */
  lemma {:induction false} RenderConcat(level: string, a: seq<Entry>, b: seq<Entry>, indent: nat)
    ensures Render(level, a + b, indent) == Render(level, a, indent) + Render(level, b, indent)
    decreases |a|
  {
    if a == [] {
      assert a + b == b;
    } else {
      assert (a + b)[0] == a[0] && (a + b)[1..] == a[1..] + b;
      RenderConcat(level, a[1..], b, indent);
    }
  }

  /** Rendering one more entry appends that entry's events. */
  lemma RenderSnoc(level: string, ctx: seq<Entry>, i: nat, indent: nat)
    requires i < |ctx|
    ensures Render(level, ctx[..i + 1], indent) == Render(level, ctx[..i], indent) + EntryEvents(level, ctx[i], indent)
  {
    assert ctx[..i + 1] == ctx[..i] + [ctx[i]];
    RenderConcat(level, ctx[..i], [ctx[i]], indent);
    assert Render(level, [ctx[i]], indent) == EntryEvents(level, ctx[i], indent) + Render(level, [], indent);
  }

  /** The length of the output depends on the shape of the context only. */
  lemma {:induction false} RenderLength(level: string, ctx: seq<Entry>, indent: nat)
    ensures |Render(level, ctx, indent)| == EventCount(ctx)
    decreases ctx
  {
    if ctx != [] {
      EntryEventsLength(level, ctx[0], indent);
      RenderLength(level, ctx[1..], indent);
    }
  }

  lemma {:induction false} EntryEventsLength(level: string, e: Entry, indent: nat)
    ensures |EntryEvents(level, e, indent)| == EntryEventCount(e)
    decreases e
  {
    match e.val {
      case Scalar(_) =>
      case Array(es) => RenderLength(level, es, indent + 1);
    }
  }

  /**
   * Every event is styled by the caller's level, and no tab is narrower than the indentation
   * the entries started at.
   */
  lemma {:induction false} RenderStyled(level: string, ctx: seq<Entry>, indent: nat)
    ensures forall ev :: ev in Render(level, ctx, indent) ==> StyledAt(ev, level, indent)
    decreases ctx
  {
    if ctx != [] {
      EntryEventsStyled(level, ctx[0], indent);
      RenderStyled(level, ctx[1..], indent);
    }
  }

  lemma {:induction false} EntryEventsStyled(level: string, e: Entry, indent: nat)
    ensures forall ev :: ev in EntryEvents(level, e, indent) ==> StyledAt(ev, level, indent)
    decreases e
  {
    match e.val {
      case Scalar(_) =>
      case Array(es) =>
        RenderStyled(level, es, indent + 1);
        forall ev | ev in Render(level, es, indent + 1) ensures StyledAt(ev, level, indent) {
          assert StyledAt(ev, level, indent + 1);
        }
    }
  }

  /** The entries read back from a run of events, and the events after them. */
  datatype Parsed = Parsed(entries: seq<Entry>, rest: seq<Event>)

  /** `evs` starts with an entry at `indent`: its tab, its inline "key: " and a line. */
  predicate OpensEntry(evs: seq<Event>, indent: nat)
  {
    |evs| >= 3 && evs[0] == Tab(indent) && evs[1].Inline? && |evs[1].text| >= 2 && evs[2].Line?
  }

  /** `evs` starts with the "]" line that closes an array entry at `indent`. */
  predicate ClosesArray(evs: seq<Event>, indent: nat)
  {
    |evs| >= 2 && evs[0] == Tab(indent) && evs[1].Line? && evs[1].text == "]"
  }

  /** After a "[" line at `indent`, `evs` continues as an array: a nested entry or the closing line. */
  predicate ContinuesArray(evs: seq<Event>, indent: nat)
  {
    (|evs| >= 1 && evs[0] == Tab(indent + 1)) || ClosesArray(evs, indent)
  }

  /**
   * Reads entries at `indent` from the front of `evs`, stopping at the first event that does not
   * open one. A "[" line is a nested array when what follows continues one, a scalar otherwise.
   */
  function ParseEntries(evs: seq<Event>, indent: nat): (r: Option<Parsed>)
    ensures r.Some? ==> |r.value.rest| <= |evs|
    decreases |evs|
  {
    if !OpensEntry(evs, indent) then Some(Parsed([], evs))
    else
      var heading := evs[1].text;
      var key := heading[..|heading| - 2];
      if evs[2].text == "[" && ContinuesArray(evs[3..], indent) then
        match ParseEntries(evs[3..], indent + 1)
        case None => None
        case Some(inner) =>
          if !ClosesArray(inner.rest, indent) then None
          else
            match ParseEntries(inner.rest[2..], indent)
            case None => None
            case Some(more) => Some(Parsed([Entry(key, Array(inner.entries))] + more.entries, more.rest))
      else
        match ParseEntries(evs[3..], indent)
        case None => None
        case Some(more) => Some(Parsed([Entry(key, Scalar(evs[2].text))] + more.entries, more.rest))
  }

  /** What may follow the entries rendered at `indent`: nothing, or a tab further out. */
  predicate Boundary(rest: seq<Event>, indent: nat)
  {
    rest == [] || (rest[0].Tab? && rest[0].width < indent)
  }

  /** What follows one entry at `indent`: the next entry at `indent`, or a boundary. */
  lemma AfterEntry(level: string, ctx: seq<Entry>, indent: nat, rest: seq<Event>)
    requires Boundary(rest, indent)
    ensures var evs := Render(level, ctx, indent) + rest;
            Boundary(evs, indent) || (|evs| >= 2 && evs[0] == Tab(indent) && evs[1].Inline?)
  {
    if ctx != [] {
      var evs := Render(level, ctx, indent) + rest;
      assert evs == EntryEvents(level, ctx[0], indent) + (Render(level, ctx[1..], indent) + rest);
    }
  }

  /**
   * Rendering loses nothing: parsing the events of `ctx` rendered at `indent` gives back `ctx`,
   * and leaves the events that follow untouched.
   */
  lemma {:induction false} ParseRender(level: string, ctx: seq<Entry>, indent: nat, rest: seq<Event>)
    requires Boundary(rest, indent)
    ensures ParseEntries(Render(level, ctx, indent) + rest, indent) == Some(Parsed(ctx, rest))
    decreases ctx, 2
  {
    if ctx == [] {
      assert Render(level, ctx, indent) + rest == rest;
    } else {
      var tail := Render(level, ctx[1..], indent) + rest;
      ParseRender(level, ctx[1..], indent, rest);
      AfterEntry(level, ctx[1..], indent, rest);
      ParseEntry(level, ctx[0], indent, tail, ctx[1..], rest);
      RenderCons(level, ctx, indent, rest);
    }
  }

  lemma RenderCons(level: string, ctx: seq<Entry>, indent: nat, rest: seq<Event>)
    requires ctx != []
    ensures Render(level, ctx, indent) + rest
         == EntryEvents(level, ctx[0], indent) + (Render(level, ctx[1..], indent) + rest)
    ensures [ctx[0]] + ctx[1..] == ctx
  {
  }

  /** One rendered entry in front of events that parse to `later` is read back in front of them. */
  lemma {:induction false} ParseEntry(level: string, e: Entry, indent: nat, tail: seq<Event>,
                                      later: seq<Entry>, rest: seq<Event>)
    requires ParseEntries(tail, indent) == Some(Parsed(later, rest))
    requires Boundary(tail, indent) || (|tail| >= 2 && tail[0] == Tab(indent) && tail[1].Inline?)
    ensures ParseEntries(EntryEvents(level, e, indent) + tail, indent) == Some(Parsed([e] + later, rest))
    decreases e, 1
  {
    if e.val.Scalar? {
      ParseScalarEntry(level, e, indent, tail, later, rest);
    } else {
      ParseArrayEntry(level, e, indent, tail, later, rest);
    }
  }

  lemma ParseScalarEntry(level: string, e: Entry, indent: nat, tail: seq<Event>,
                         later: seq<Entry>, rest: seq<Event>)
    requires e.val.Scalar?
    requires ParseEntries(tail, indent) == Some(Parsed(later, rest))
    requires Boundary(tail, indent) || (|tail| >= 2 && tail[0] == Tab(indent) && tail[1].Inline?)
    ensures ParseEntries(EntryEvents(level, e, indent) + tail, indent) == Some(Parsed([e] + later, rest))
  {
    var evs := EntryEvents(level, e, indent) + tail;
    assert OpensEntry(evs, indent);
    assert evs[1].text[..|evs[1].text| - 2] == e.key;
    assert evs[3..] == tail;
    assert !ContinuesArray(tail, indent);
  }

  lemma {:induction false} ParseArrayEntry(level: string, e: Entry, indent: nat, tail: seq<Event>,
                                           later: seq<Entry>, rest: seq<Event>)
    requires e.val.Array?
    requires ParseEntries(tail, indent) == Some(Parsed(later, rest))
    ensures ParseEntries(EntryEvents(level, e, indent) + tail, indent) == Some(Parsed([e] + later, rest))
    decreases e, 0
  {
    var es := e.val.entries;
    var evs := EntryEvents(level, e, indent) + tail;
    var close := [Tab(indent), Line(level, "]")];
    var nested := Render(level, es, indent + 1) + (close + tail);
    assert OpensEntry(evs, indent) && evs[1].text[..|evs[1].text| - 2] == e.key
        && evs[2].text == "[" && evs[3..] == nested by {
      var head := [Tab(indent), Inline(level, e.key + ": "), Line(level, "[")];
      assert evs == head + nested;
    }
    assert ContinuesArray(nested, indent) by {
      if es != [] {
        assert Render(level, es, indent + 1)[0] == Tab(indent + 1);
      }
    }
    assert ParseEntries(nested, indent + 1) == Some(Parsed(es, close + tail)) by {
      ParseRender(level, es, indent + 1, close + tail);
    }
    assert ClosesArray(close + tail, indent) && (close + tail)[2..] == tail;
    assert e == Entry(e.key, Array(es));
  }
}
