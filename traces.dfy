/**
 * Concrete records: the console calls the logger makes for the calls its test suite makes,
 * and a few edge cases of the gate and of placeholder substitution.
 */
module Traces {
  import opened Results
  import opened Text
  import opened Levels
  import opened Context
  import opened Substitution
  import opened Rendering
  import opened ClimateLogger

  /** The threshold of a logger built without a level argument. */
  const DefaultThreshold: int := LogLevels[INFO]

  /** A message without "{" has no placeholder of any key in it. */
  lemma BraceFree(message: string, ctx: seq<Entry>)
    requires '{' !in message
    ensures Substitute(message, ctx) == Substituted(message, ctx)
  {
    forall e | e in ctx ensures !Contains(message, Placeholder(e.key)) {
      FirstAbsent(message, Placeholder(e.key));
    }
    SubstituteNoPlaceholders(message, ctx);
  }

  /** `log("critical", "Testing log")` prints one critical line at the default threshold. */
  lemma CriticalLogged()
    ensures LogTrace(DefaultThreshold, CRITICAL, "Testing log", []) == [Line(CRITICAL, "Testing log")]
  {
    BraceFree("Testing log", []);
  }

  /** An empty context adds nothing after the message line. */
  lemma EmptyContext()
    ensures LogTrace(DefaultThreshold, INFO, "No context", []) == [Line(INFO, "No context")]
  {
    BraceFree("No context", []);
  }

  /**
   * At the default threshold a debug message is dropped: rank 8 is above 7. (The suite's
   * `testDebug` expects it printed.)
   */
  lemma DebugDroppedByDefault(message: string, ctx: seq<Entry>)
    ensures LogTrace(DefaultThreshold, DEBUG, message, ctx) == []
  {
  }

  /**
   * With the threshold set to emergency only messages gated as emergency get through: an alert
   * is dropped, and so is every other named level below emergency.
   */
  lemma EmergencyThreshold(level: string, message: string, ctx: seq<Entry>)
    ensures LogTrace(LogLevels[EMERGENCY], level, message, ctx) != [] <==> GateRank(level) == 1
    ensures LogTrace(LogLevels[EMERGENCY], ALERT, message, ctx) == []
  {
    LogGate(LogLevels[EMERGENCY], level, message, ctx);
  }

  /** Level names are matched exactly: "DEBUG" is not a level, so it is gated as emergency. */
  lemma LevelNamesAreCaseSensitive()
    ensures LookupLevel("DEBUG").None? && GateRank("DEBUG") == 1
  {
    assert "DEBUG" != DEBUG;
  }

  /**
   * An unused context entry follows the message as one indented "key: value" line (the suite's
   * `testContext`, for any message without "{").
   */
  lemma ContextPrinted(message: string, key: string, value: string)
    requires '{' !in message
    ensures LogTrace(DefaultThreshold, INFO, message, [Entry(key, Scalar(value))])
         == [Line(INFO, message), Tab(1), Inline(INFO, key + ": "), Line(INFO, value)]
  {
    var e := Entry(key, Scalar(value));
    BraceFree(message, [e]);
    RenderOne(INFO, e, 1);
  }

  /**
   * A placeholder is replaced by its value, and its entry is not printed again (the suite's
   * `testPlaceholders`, for any text around the placeholder without "{").
   */
  lemma PlaceholderReplaced(before: string, key: string, value: string, after: string)
    requires '{' !in before && '{' !in after
    ensures LogTrace(DefaultThreshold, INFO, before + Placeholder(key) + after, [Entry(key, Scalar(value))])
         == [Line(INFO, before + value + after)]
  {
    var ctx := [Entry(key, Scalar(value))];
    Fill(before, key, value, after);
    assert Substitute(before + Placeholder(key) + after, ctx) == Substitute(before + value + after, ctx[1..]);
  }

  /**
   * Used and unused entries together: the placeholder is filled and the other entry printed
   * after the message (the suite's `testPlaceholdersAndContext`).
   */
  lemma PlaceholderAndContext(before: string, key: string, value: string, after: string,
                              otherKey: string, otherValue: string)
    requires '{' !in before && '{' !in value && '{' !in after
    ensures LogTrace(DefaultThreshold, INFO, before + Placeholder(key) + after,
                     [Entry(key, Scalar(value)), Entry(otherKey, Scalar(otherValue))])
         == [Line(INFO, before + value + after), Tab(1), Inline(INFO, otherKey + ": "), Line(INFO, otherValue)]
  {
    var other := Entry(otherKey, Scalar(otherValue));
    var ctx := [Entry(key, Scalar(value)), other];
    var filled := before + value + after;
    Fill(before, key, value, after);
    assert Substitute(before + Placeholder(key) + after, ctx) == Substitute(filled, [other]);
    BraceFree(filled, [other]);
    RenderOne(INFO, other, 1);
  }

  /** The placeholder of `key` between two texts without "{" is found and replaced by `text`. */
  lemma Fill(before: string, key: string, text: string, after: string)
    requires '{' !in before && '{' !in after
    ensures Contains(before + Placeholder(key) + after, Placeholder(key))
    ensures ReplaceAll(before + Placeholder(key) + after, Placeholder(key), text) == before + text + after
  {
    var pat := Placeholder(key);
    var s := before + pat + after;
    assert pat[0] == '{';
    assert Contains(s, pat) by {
      ContainsMiddle(before, pat, after);
    }
    assert s == before + (pat + after);
    ReplaceSkip(before, pat + after, pat, text);
    ReplaceSkip([], after, pat, text);
    FirstAbsent(after, pat);
    ReplaceAbsent(after, pat, text);
  }

  /** Rendering a single entry is rendering that entry. */
  lemma RenderOne(level: string, e: Entry, indent: nat)
    ensures Render(level, [e], indent) == EntryEvents(level, e, indent)
  {
    assert Render(level, [e], indent) == EntryEvents(level, e, indent) + Render(level, [], indent);
  }

  /** Rendering two entries is rendering one after the other. */
  lemma RenderTwo(level: string, a: Entry, b: Entry, indent: nat)
    ensures Render(level, [a, b], indent) == EntryEvents(level, a, indent) + EntryEvents(level, b, indent)
  {
    assert [a, b][1..] == [b];
    RenderOne(level, b, indent);
  }

  /** The context of the suite's recursive test: an array holding a list. */
  const Extra: Entry := Entry("extra", Array([Entry("0", Scalar("Three")), Entry("1", Scalar("Four"))]))
  const Data: Entry := Entry("data", Array([Entry("field1", Scalar("One")), Entry("field2", Scalar("Two")), Extra]))

  /** The calls the suite's recursive test expects after the message, built from the inside out. */
  const ListEvents: seq<Event> :=
    [Tab(3), Inline(INFO, "0: "), Line(INFO, "Three"),
     Tab(3), Inline(INFO, "1: "), Line(INFO, "Four")]
  const FieldEvents: seq<Event> :=
    [Tab(2), Inline(INFO, "field1: "), Line(INFO, "One"),
     Tab(2), Inline(INFO, "field2: "), Line(INFO, "Two"),
     Tab(2), Inline(INFO, "extra: "), Line(INFO, "[")] + ListEvents + [Tab(2), Line(INFO, "]")]
  const DataEvents: seq<Event> :=
    [Tab(1), Inline(INFO, "data: "), Line(INFO, "[")] + FieldEvents + [Tab(1), Line(INFO, "]")]

  /** Nested arrays are printed depth first, one tab further in per level, keys of lists as indices. */
  lemma RecursiveContext()
    ensures LogTrace(DefaultThreshold, INFO, "INFO", [Data]) == [Line(INFO, "INFO")] + DataEvents
  {
    BraceFree("INFO", [Data]);
    RenderFields();
    RenderOne(INFO, Data, 1);
    assert Data.key + ": " == "data: ";
  }

  lemma RenderFields()
    ensures Render(INFO, Data.val.entries, 2) == FieldEvents
  {
    var one := Entry("field1", Scalar("One"));
    var two := Entry("field2", Scalar("Two"));
    assert one.key + ": " == "field1: " && two.key + ": " == "field2: " && Extra.key + ": " == "extra: ";
    var a := [Tab(2), Inline(INFO, "field1: "), Line(INFO, "One")];
    var b := [Tab(2), Inline(INFO, "field2: "), Line(INFO, "Two")];
    var c := [Tab(2), Inline(INFO, "extra: "), Line(INFO, "[")] + ListEvents + [Tab(2), Line(INFO, "]")];
    assert EntryEvents(INFO, one, 2) == a;
    assert EntryEvents(INFO, two, 2) == b;
    assert EntryEvents(INFO, Extra, 2) == c by {
      RenderList();
    }
    assert Render(INFO, [one, two, Extra], 2) == a + (b + c) by {
      RenderTwo(INFO, two, Extra, 2);
      assert [one, two, Extra][1..] == [two, Extra];
    }
  }

  lemma RenderList()
    ensures Render(INFO, Extra.val.entries, 3) == ListEvents
  {
    var three := Entry("0", Scalar("Three"));
    var four := Entry("1", Scalar("Four"));
    assert three.key + ": " == "0: " && four.key + ": " == "1: ";
    RenderTwo(INFO, three, four, 3);
  }

  /**
   * Entries take their turns in context order and replaced text is not scanned again for earlier
   * keys: when the message is `second`'s placeholder and `second`'s value is `first`'s
   * placeholder, `first`'s turn has passed by the time its placeholder appears, so the message
   * ends as `first`'s placeholder and `first`'s entry is left as context.
   */
  lemma TurnsInContextOrder(first: string, second: string, value: string)
    requires !Contains(Placeholder(second), Placeholder(first))
    ensures Substitute(Placeholder(second), [Entry(first, Scalar(value)), Entry(second, Scalar(Placeholder(first)))])
         == Substituted(Placeholder(first), [Entry(first, Scalar(value))])
  {
    var a := Entry(first, Scalar(value));
    var b := Entry(second, Scalar(Placeholder(first)));
    assert Substitute(Placeholder(second), [a, b]) == After([a], Substitute(Placeholder(second), [b])) by {
      assert [a, b][1..] == [b];
    }
    assert Substitute(Placeholder(second), [b]) == Substituted(Placeholder(first), []) by {
      Fill([], second, Placeholder(first), []);
      assert [] + Placeholder(second) + [] == Placeholder(second);
      assert [b][1..] == [];
    }
  }

  /** Two distinct keys neither of which holds a brace: "{user}" does not contain "{date}". */
  lemma UserThenDate()
    ensures Substitute("{user}", [Entry("date", Scalar("x")), Entry("user", Scalar("{date}"))])
         == Substituted("{date}", [Entry("date", Scalar("x"))])
  {
    assert Placeholder("user") == "{user}" && Placeholder("date") == "{date}";
    assert !Contains("{user}", "{date}") by {
      assert "{user}"[1] != "{date}"[1];
      assert "{user}"[1..] == "user}";
      FirstAbsent("user}", "{date}");
    }
    TurnsInContextOrder("date", "user", "x");
  }

  /** An array value used as a placeholder is cast to the text "Array". */
  lemma ArrayPlaceholder(before: string, key: string, entries: seq<Entry>, after: string)
    requires '{' !in before && '{' !in after
    ensures Substitute(before + Placeholder(key) + after, [Entry(key, Array(entries))])
         == Substituted(before + "Array" + after, [])
  {
    var e := Entry(key, Array(entries));
    Fill(before, key, "Array", after);
    assert Substitute(before + Placeholder(key) + after, [e]) == Substitute(before + "Array" + after, [e][1..]);
  }
}
