/**
 * Placeholder substitution: each context entry, in context order, replaces every "{key}" in the
 * message as it stands at that entry's turn, and is consumed when its placeholder was present.
 */
module Substitution {
  import opened Text
  import opened Context

  /** The final message and the context entries no placeholder consumed. */
  datatype Substituted = Substituted(message: string, residual: seq<Entry>)

  /** One entry's turn: its placeholder, when present, replaced everywhere by the value's string. */
  function Apply(message: string, e: Entry): string
  {
    var placeholder := Placeholder(e.key);
    if Contains(message, placeholder) then ReplaceAll(message, placeholder, Stringify(e.val))
    else message
  }

  /** Substitution over the whole context, entry by entry from the first. */
  function Substitute(message: string, ctx: seq<Entry>): Substituted
    decreases |ctx|
  {
    if ctx == [] then Substituted(message, [])
    else if Contains(message, Placeholder(ctx[0].key)) then Substitute(Apply(message, ctx[0]), ctx[1..])
    else
      var rest := Substitute(message, ctx[1..]);
      Substituted(rest.message, [ctx[0]] + rest.residual)
  }

  /** `r` preceded by entries `kept` that an earlier part of the context left unconsumed. */
  function After(kept: seq<Entry>, r: Substituted): Substituted
  {
    Substituted(r.message, kept + r.residual)
  }

  /** Reference definition: the message once the first `i` entries have had their turn. */
  function MessageAfter(message: string, ctx: seq<Entry>, i: nat): string
    requires i <= |ctx|
    decreases i
  {
    if i == 0 then message else Apply(MessageAfter(message, ctx, i - 1), ctx[i - 1])
  }

  /** Entry `i` is kept: its placeholder is absent from the message when its turn comes. */
  predicate Kept(message: string, ctx: seq<Entry>, i: nat)
    requires i < |ctx|
  {
    !Contains(MessageAfter(message, ctx, i), Placeholder(ctx[i].key))
  }

  /** Reference definition: the kept entries among the first `i`, in context order. */
  function KeptAmong(message: string, ctx: seq<Entry>, i: nat): seq<Entry>
    requires i <= |ctx|
    decreases i
  {
    if i == 0 then []
    else KeptAmong(message, ctx, i - 1) + (if Kept(message, ctx, i - 1) then [ctx[i - 1]] else [])
  }

  /**
   * Substitution splits at any entry: the first `i` entries leave the message `MessageAfter(i)`
   * and keep `KeptAmong(i)`, and the rest of the context goes on from there.
   */
  lemma {:induction false} SubstituteSplit(message: string, ctx: seq<Entry>, i: nat)
    requires i <= |ctx|
    ensures Substitute(message, ctx)
         == After(KeptAmong(message, ctx, i), Substitute(MessageAfter(message, ctx, i), ctx[i..]))
    decreases i
  {
    if i == 0 {
      assert ctx[0..] == ctx;
    } else {
      var m := MessageAfter(message, ctx, i - 1);
      var kept := KeptAmong(message, ctx, i - 1);
      var here: seq<Entry> := if Contains(m, Placeholder(ctx[i - 1].key)) then [] else [ctx[i - 1]];
      var later := Substitute(Apply(m, ctx[i - 1]), ctx[i..]);
      assert Substitute(message, ctx) == After(kept + here, later) by {
        SubstituteSplit(message, ctx, i - 1);
        SubstituteStep(m, ctx, i - 1);
        AfterAfter(kept, here, later);
      }
    }
  }

  /** Entries kept in two stretches, one after the other, are kept in one. */
  lemma AfterAfter(kept: seq<Entry>, here: seq<Entry>, later: Substituted)
    ensures After(kept, After(here, later)) == After(kept + here, later)
  {
    assert kept + (here + later.residual) == (kept + here) + later.residual;
  }

  /** One turn of the fold, seen from the index-based reference definitions. */
  lemma SubstituteStep(m: string, ctx: seq<Entry>, j: nat)
    requires j < |ctx|
    ensures Substitute(m, ctx[j..])
         == After(if Contains(m, Placeholder(ctx[j].key)) then [] else [ctx[j]],
                  Substitute(Apply(m, ctx[j]), ctx[j + 1..]))
  {
    assert ctx[j..][0] == ctx[j] && ctx[j..][1..] == ctx[j + 1..];
  }

  /** The reference definitions advanced by entry `i`'s turn, when the message before it is `msg`. */
  lemma Turn(message: string, ctx: seq<Entry>, i: nat, msg: string)
    requires i < |ctx| && msg == MessageAfter(message, ctx, i)
    ensures var placeholder := Placeholder(ctx[i].key);
            && MessageAfter(message, ctx, i + 1)
               == (if Contains(msg, placeholder) then ReplaceAll(msg, placeholder, Stringify(ctx[i].val)) else msg)
            && KeptAmong(message, ctx, i + 1)
               == KeptAmong(message, ctx, i) + (if Contains(msg, placeholder) then [] else [ctx[i]])
  {
  }

  /**
   * In a context with unique keys, unsetting the key of entry `i` from the entries kept so far
   * followed by the entries from `i` on leaves the kept entries and the entries after `i`.
   */
  lemma UnsetConsumed(message: string, ctx: seq<Entry>, i: nat)
    requires UniqueKeys(ctx) && i < |ctx|
    ensures Unset(KeptAmong(message, ctx, i) + ctx[i..], ctx[i].key) == KeptAmong(message, ctx, i) + ctx[i + 1..]
  {
    KeptAmongOnlyBefore(message, ctx, i);
    UnsetAtTurn(KeptAmong(message, ctx, i), ctx, i);
  }

  /**
   * The entries still in the array after entry `i`'s turn: with its placeholder present it is
   * unset, otherwise it stays; either way they are the kept entries followed by those after `i`.
   */
  lemma KeptStep(message: string, ctx: seq<Entry>, i: nat, msg: string, remaining: seq<Entry>)
    requires UniqueKeys(ctx) && i < |ctx|
    requires msg == MessageAfter(message, ctx, i)
    requires remaining == KeptAmong(message, ctx, i) + ctx[i..]
    ensures var placeholder := Placeholder(ctx[i].key);
            (if Contains(msg, placeholder) then Unset(remaining, ctx[i].key) else remaining)
              == KeptAmong(message, ctx, i + 1) + ctx[i + 1..]
  {
    var kept := KeptAmong(message, ctx, i);
    var present := Contains(msg, Placeholder(ctx[i].key));
    assert KeptAmong(message, ctx, i + 1) == kept + (if present then [] else [ctx[i]]) by {
      assert Kept(message, ctx, i) == !present;
    }
    if present {
      assert Unset(remaining, ctx[i].key) == kept + ctx[i + 1..] by {
        UnsetConsumed(message, ctx, i);
      }
      assert kept + [] == kept;
    } else {
      assert remaining == (kept + [ctx[i]]) + ctx[i + 1..] by {
        assert ctx[i..] == [ctx[i]] + ctx[i + 1..];
      }
    }
  }

  /**
   * Substitution agrees with the reference definitions: the final message is the message after
   * every entry's turn, and the residual holds exactly the kept entries, in context order.
   */
  lemma SubstituteMeaning(message: string, ctx: seq<Entry>)
    ensures Substitute(message, ctx).message == MessageAfter(message, ctx, |ctx|)
    ensures Substitute(message, ctx).residual == KeptAmong(message, ctx, |ctx|)
  {
    SubstituteSplit(message, ctx, |ctx|);
    assert ctx[|ctx|..] == [];
  }

  lemma {:induction false} KeptAmongMembers(message: string, ctx: seq<Entry>, n: nat, i: nat)
    requires UniqueKeys(ctx) && i < n <= |ctx|
    ensures ctx[i] in KeptAmong(message, ctx, n) <==> Kept(message, ctx, i)
    decreases n
  {
    var prev := KeptAmong(message, ctx, n - 1);
    if i < n - 1 {
      KeptAmongMembers(message, ctx, n - 1, i);
      assert ctx[i] != ctx[n - 1] by {
        assert ctx[i].key != ctx[n - 1].key;
      }
    } else {
      KeptAmongOnlyBefore(message, ctx, n - 1);
      assert ctx[n - 1] !in prev;
    }
  }

  lemma {:induction false} KeptAmongOnlyBefore(message: string, ctx: seq<Entry>, n: nat)
    requires UniqueKeys(ctx) && n < |ctx|
    ensures ctx[n] !in KeptAmong(message, ctx, n)
    ensures forall e :: e in KeptAmong(message, ctx, n) ==> e in ctx[..n]
    decreases n
  {
    if n > 0 {
      KeptAmongOnlyBefore(message, ctx, n - 1);
      assert ctx[n - 1].key != ctx[n].key;
      forall e | e in KeptAmong(message, ctx, n) ensures e in ctx[..n] {
        if e in KeptAmong(message, ctx, n - 1) {
          assert e in ctx[..n - 1];
          assert ctx[..n - 1] == ctx[..n][..n - 1];
        } else {
          assert e == ctx[n - 1] == ctx[..n][n - 1];
        }
      }
    }
  }

  /**
   * In a context with unique keys, an entry survives into the residual exactly when its
   * placeholder is absent from the message as it stands at the entry's turn.
   */
  lemma ConsumedIffPlaceholderPresent(message: string, ctx: seq<Entry>, i: nat)
    requires UniqueKeys(ctx) && i < |ctx|
    ensures ctx[i] in Substitute(message, ctx).residual
        <==> !Contains(MessageAfter(message, ctx, i), Placeholder(ctx[i].key))
  {
    SubstituteMeaning(message, ctx);
    KeptAmongMembers(message, ctx, |ctx|, i);
  }

  /**
   * The residual keeps entries of the context in their original relative order, so its keys
   * stay unique.
   */
  lemma {:induction false} ResidualIsSubsequence(message: string, ctx: seq<Entry>)
    ensures IsSubsequence(Substitute(message, ctx).residual, ctx)
    ensures UniqueKeys(ctx) ==> UniqueKeys(Substitute(message, ctx).residual)
    decreases |ctx|
  {
    var r := Substitute(message, ctx);
    if ctx != [] {
      if Contains(message, Placeholder(ctx[0].key)) {
        ResidualIsSubsequence(Apply(message, ctx[0]), ctx[1..]);
        if r.residual != [] {
          assert IsSubsequence(r.residual, ctx[1..]);
        }
      } else {
        ResidualIsSubsequence(message, ctx[1..]);
        assert r.residual[0] == ctx[0] && r.residual[1..] == Substitute(message, ctx[1..]).residual;
      }
    }
    SubsequenceMembers(r.residual, ctx);
  }

  /**
   * When no key's placeholder occurs in the message, nothing is substituted: the message and any
   * unmatched "{...}" tokens in it come out unchanged, and the whole context is residual.
   */
  lemma {:induction false} SubstituteNoPlaceholders(message: string, ctx: seq<Entry>)
    requires forall e :: e in ctx ==> !Contains(message, Placeholder(e.key))
    ensures Substitute(message, ctx) == Substituted(message, ctx)
    decreases |ctx|
  {
    if ctx != [] {
      assert ctx[0] in ctx;
      SubstituteNoPlaceholders(message, ctx[1..]);
    }
  }

  /** The residual never outgrows the context, and when every entry is kept the message is unchanged. */
  lemma {:induction false} NothingConsumedNothingChanged(message: string, ctx: seq<Entry>)
    ensures |Substitute(message, ctx).residual| <= |ctx|
    ensures Substitute(message, ctx).residual == ctx ==> Substitute(message, ctx).message == message
    decreases |ctx|
  {
    if ctx != [] {
      if Contains(message, Placeholder(ctx[0].key)) {
        NothingConsumedNothingChanged(Apply(message, ctx[0]), ctx[1..]);
      } else {
        NothingConsumedNothingChanged(message, ctx[1..]);
        var r := Substitute(message, ctx);
        if r.residual == ctx {
          assert r.residual[1..] == ctx[1..];
        }
      }
    }
  }
}
