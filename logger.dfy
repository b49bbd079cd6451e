/**
 * The PSR-3 logger that writes to a CLImate console. A logger holds a threshold rank; `Log`
 * drops messages ranked above it and otherwise prints the message, with its placeholders filled
 * from the context, followed by whatever context the placeholders did not use.
 *
 * The console is represented by `output`, the sequence of calls the logger has made on it.
 */
module ClimateLogger {
  import opened Results
  import opened Text
  import opened Levels
  import opened Context
  import opened Substitution
  import opened Rendering

  /** The `InvalidArgumentException` thrown for a level name missing from the table. */
  datatype LogError = InvalidLevel

  /** Everything one `log` call prints when the threshold is `threshold`. */
  function LogTrace(threshold: int, level: string, message: string, ctx: seq<Entry>): seq<Event>
  {
    if GateRank(level) > threshold then []
    else
      var s := Substitute(message, ctx);
      [Line(level, s.message)] + Render(level, s.residual, 1)
  }

  /** One printed log record: the style its line was printed in, its text and its context. */
  datatype Record = Record(level: string, message: string, context: seq<Entry>)

  /** Reads one log record back from the console calls of a single `log`. */
  function ParseLog(evs: seq<Event>): Option<Record>
  {
    if evs == [] || !evs[0].Line? then None
    else
      match ParseEntries(evs[1..], 1)
      case Some(p) => if p.rest == [] then Some(Record(evs[0].style, evs[0].text, p.entries)) else None
      case None => None
  }

  /** A message is printed exactly when its gating rank is at most the threshold. */
  lemma LogGate(threshold: int, level: string, message: string, ctx: seq<Entry>)
    ensures LogTrace(threshold, level, message, ctx) != [] <==> GateRank(level) <= threshold
    ensures GateRank(level) > threshold ==> LogTrace(threshold, level, message, ctx) == []
  {
  }

  /** A level that is not a key of the table is gated as emergency, so it is never dropped. */
  lemma UnknownLevelNeverSuppressed(threshold: int, level: string, message: string, ctx: seq<Entry>)
    requires IsRank(threshold) && LookupLevel(level).None?
    ensures LogTrace(threshold, level, message, ctx) != []
    ensures LogTrace(threshold, level, message, ctx)[0] == Line(level, Substitute(message, ctx).message)
  {
  }

  /**
   * A printed record reads back as the caller's level string, the substituted message and the
   * residual context: the first call is the message line, and the rest renders exactly the
   * residual.
   */
  lemma LogRoundTrip(threshold: int, level: string, message: string, ctx: seq<Entry>)
    requires GateRank(level) <= threshold
    ensures var s := Substitute(message, ctx);
            ParseLog(LogTrace(threshold, level, message, ctx)) == Some(Record(level, s.message, s.residual))
  {
    var s := Substitute(message, ctx);
    var evs := LogTrace(threshold, level, message, ctx);
    ParseRender(level, s.residual, 1, []);
    assert evs[1..] == Render(level, s.residual, 1) + [];
  }

  /**
   * A printed record is one line plus the residual's events (three per scalar, five plus the
   * nested ones per array), so a record whose context was used up is exactly one line. Every
   * call is styled by the caller's level, at indentation 1 or deeper.
   */
  lemma LogShape(threshold: int, level: string, message: string, ctx: seq<Entry>)
    requires GateRank(level) <= threshold
    ensures var s := Substitute(message, ctx);
            && |LogTrace(threshold, level, message, ctx)| == 1 + EventCount(s.residual)
            && (s.residual == [] ==> LogTrace(threshold, level, message, ctx) == [Line(level, s.message)])
            && forall ev :: ev in LogTrace(threshold, level, message, ctx) ==> StyledAt(ev, level, 1)
  {
    var s := Substitute(message, ctx);
    RenderLength(level, s.residual, 1);
    RenderStyled(level, s.residual, 1);
  }

  /** A record that passes the gate is its substituted message line followed by its residual. */
  lemma LogTraceShown(threshold: int, level: string, message: string, ctx: seq<Entry>)
    requires GateRank(level) <= threshold
    ensures var s := Substitute(message, ctx);
            LogTrace(threshold, level, message, ctx) == [Line(level, s.message)] + Render(level, s.residual, 1)
  {
  }

  /** What `log`'s substitution loop leaves once every entry has had its turn is the substitution. */
  lemma LoopResult(message: string, ctx: seq<Entry>, msg: string, remaining: seq<Entry>)
    requires msg == MessageAfter(message, ctx, |ctx|)
    requires remaining == KeptAmong(message, ctx, |ctx|) + ctx[|ctx|..]
    ensures Substitute(message, ctx) == Substituted(msg, remaining)
  {
    SubstituteMeaning(message, ctx);
    assert ctx[|ctx|..] == [];
  }

  class Logger {
    /** `$level`: the rank above which messages are ignored. */
    var threshold: int
    /** The calls made on the console so far. */
    var output: seq<Event>

    ghost predicate Valid()
      reads this
    {
      IsRank(threshold)
    }

    /** `new Logger()`: the level argument defaults to info. */
    constructor ()
      ensures Valid() && threshold == LogLevels[INFO] && output == []
    {
      threshold := LogLevels[INFO];
      output := [];
    }

    /** `new Logger($climate, $level)`: throws, as `setLogLevel` does, when `level` is not in the table. */
    static method Create(level: string) returns (r: Result<Logger, LogError>)
      ensures r.Success? <==> LookupLevel(level).Some?
      ensures r.Success? ==> fresh(r.value) && r.value.Valid() && r.value.output == []
                             && r.value.threshold == LookupLevel(level).value
      ensures r.Failure? ==> r.error == InvalidLevel
    {
      var logger := new Logger();
      var outcome := logger.SetLogLevel(level);
      if outcome.Fail? {
        return Failure(outcome.error);
      }
      return Success(logger);
    }

    /** Sets the threshold to the rank of `level`, or throws and leaves it as it was. */
    method SetLogLevel(level: string) returns (r: Outcome<LogError>)
      requires Valid()
      modifies this`threshold
      ensures Valid()
      ensures r.Pass? <==> LookupLevel(level).Some?
      ensures r.Pass? ==> threshold == LookupLevel(level).value
      ensures r.Fail? ==> r == Fail(InvalidLevel) && threshold == old(threshold)
    {
      if level !in LogLevels {
        return Fail(InvalidLevel);
      }
      threshold := LogLevels[level];
      return Pass;
    }

    /**
     * Logs `message` at `level`: nothing when the level's gating rank is above the threshold,
     * otherwise the substituted message and then the residual context.
     */
    method Log(level: string, message: string, context: seq<Entry>)
      requires UniqueKeys(context)
      modifies this`output
      ensures output == old(output) + LogTrace(threshold, level, message, context)
    {
      var logLevel := if level in LogLevels then level else EMERGENCY;
      if LogLevels[logLevel] > threshold {
        assert LogTrace(threshold, level, message, context) == [];
        return;
      }
      var msg, remaining := Interpolate(message, context);
      LogTraceShown(threshold, level, message, context);
      ghost var before := output;
      output := output + [Line(level, msg)];
      OutputRecursiveContext(level, remaining, 1);
      assert output == before + ([Line(level, msg)] + Render(level, remaining, 1));
    }

    /**
     * Fills the placeholders of `message` entry by entry, unsetting each entry whose placeholder
     * was present when its turn came; returns the message and the entries left over.
     */
    static method Interpolate(message: string, context: seq<Entry>) returns (msg: string, remaining: seq<Entry>)
      requires UniqueKeys(context)
      ensures Substitute(message, context) == Substituted(msg, remaining)
    {
      msg := message;
      remaining := context;
      for i := 0 to |context|
        invariant msg == MessageAfter(message, context, i)
        invariant remaining == KeptAmong(message, context, i) + context[i..]
      {
        var key := context[i].key;
        var placeholder := Placeholder(key);
        Turn(message, context, i, msg);
        KeptStep(message, context, i, msg, remaining);
        if Contains(msg, placeholder) {
          msg := ReplaceAll(msg, placeholder, Stringify(context[i].val));
          remaining := Unset(remaining, key);
        }
      }
      LoopResult(message, context, msg, remaining);
    }

    /** Prints `context` at `indent`, entry by entry, descending into nested arrays. */
    method OutputRecursiveContext(level: string, context: seq<Entry>, indent: nat)
      modifies this`output
      ensures output == old(output) + Render(level, context, indent)
      decreases context
    {
      for i := 0 to |context|
        invariant output == old(output) + Render(level, context[..i], indent)
      {
        RenderSnoc(level, context, i, indent);
        OutputEntry(level, context[i], indent);
      }
      assert context[..|context|] == context;
    }

    /** One entry of the loop above: its indentation, its key, then its value or its nested entries. */
    method OutputEntry(level: string, e: Entry, indent: nat)
      modifies this`output
      ensures output == old(output) + EntryEvents(level, e, indent)
      decreases e
    {
      output := output + [Tab(indent)];
      output := output + [Inline(level, e.key + ": ")];
      match e.val {
        case Array(entries) =>
          output := output + [Line(level, "[")];
          OutputRecursiveContext(level, entries, indent + 1);
          output := output + [Tab(indent), Line(level, "]")];
        case Scalar(text) =>
          output := output + [Line(level, text)];
      }
    }

    /**
     * Logging the same call twice prints the same events twice: `log` changes neither the
     * threshold nor anything it is given.
     */
    method LogTwice(level: string, message: string, context: seq<Entry>)
      requires UniqueKeys(context)
      modifies this`output
      ensures var once := LogTrace(threshold, level, message, context);
              output == old(output) + once + once
    {
      Log(level, message, context);
      Log(level, message, context);
    }
  }
}
