/**
 * The logging context: an ordered PHP array from keys to values, where a value is either a
 * scalar (kept as its string form) or a nested array. Keys are kept as strings, so list
 * indices 0, 1, ... appear as "0", "1", ...
 */
module Context {

  datatype Value = Scalar(text: string) | Array(entries: seq<Entry>)

  datatype Entry = Entry(key: string, val: Value)

  /** A PHP array never holds a key twice. */
  predicate UniqueKeys(ctx: seq<Entry>)
  {
    forall i, j :: 0 <= i < j < |ctx| ==> ctx[i].key != ctx[j].key
  }

  /** PHP's `(string)` cast of a context value: an array becomes the literal text "Array". */
  function Stringify(v: Value): string
  {
    match v
    case Scalar(s) => s
    case Array(_) => "Array"
  }

  /** The placeholder a key is substituted for: the key wrapped in braces. */
  function Placeholder(key: string): string
  {
    "{" + key + "}"
  }

  /** `unset($ctx[$key])`: the array without the entry for `key`, the others in order. */
  function Unset(ctx: seq<Entry>, key: string): seq<Entry>
  {
    if ctx == [] then []
    else (if ctx[0].key == key then [] else [ctx[0]]) + Unset(ctx[1..], key)
  }

  /** Unsetting a key removes exactly the entries with that key. */
  lemma {:induction false} UnsetMembers(ctx: seq<Entry>, key: string)
    ensures forall e :: e in Unset(ctx, key) <==> e in ctx && e.key != key
    decreases |ctx|
  {
    if ctx != [] {
      UnsetMembers(ctx[1..], key);
      assert ctx == [ctx[0]] + ctx[1..];
    }
  }

  /** `a` keeps some of the entries of `b`, in their original relative order. */
  ghost predicate IsSubsequence(a: seq<Entry>, b: seq<Entry>)
    decreases |b|
  {
    if a == [] then true
    else if b == [] then false
    else (a[0] == b[0] && IsSubsequence(a[1..], b[1..])) || IsSubsequence(a, b[1..])
  }

  lemma {:induction false} UnsetConcat(a: seq<Entry>, b: seq<Entry>, key: string)
    ensures Unset(a + b, key) == Unset(a, key) + Unset(b, key)
    decreases |a|
  {
    if a != [] {
      assert (a + b)[1..] == a[1..] + b;
      UnsetConcat(a[1..], b, key);
    } else {
      assert a + b == b;
    }
  }

  lemma {:induction false} UnsetAbsent(ctx: seq<Entry>, key: string)
    requires forall e :: e in ctx ==> e.key != key
    ensures Unset(ctx, key) == ctx
    decreases |ctx|
  {
    if ctx != [] {
      UnsetAbsent(ctx[1..], key);
    }
  }

  /**
   * In an array with unique keys, unsetting the key of the `i`-th entry, when the entries before
   * it that are still present are `kept`, leaves `kept` followed by the entries after it.
   */
  lemma UnsetAtTurn(kept: seq<Entry>, ctx: seq<Entry>, i: nat)
    requires UniqueKeys(ctx) && i < |ctx|
    requires forall e :: e in kept ==> e in ctx[..i]
    ensures Unset(kept + ctx[i..], ctx[i].key) == kept + ctx[i + 1..]
  {
    var key := ctx[i].key;
    var after := ctx[i + 1..];
    assert Unset(kept, key) == kept && Unset(after, key) == after by {
      KeyOnlyAt(ctx, i);
      UnsetAbsent(kept, key);
      UnsetAbsent(after, key);
    }
    assert Unset(ctx[i..], key) == after by {
      assert ctx[i..] == [ctx[i]] + after;
      assert Unset([ctx[i]], key) == [];
      UnsetConcat([ctx[i]], after, key);
    }
    UnsetConcat(kept, ctx[i..], key);
  }

  /** In an array with unique keys, the `i`-th key belongs to no entry before or after it. */
  lemma KeyOnlyAt(ctx: seq<Entry>, i: nat)
    requires UniqueKeys(ctx) && i < |ctx|
    ensures forall e :: e in ctx[..i] ==> e.key != ctx[i].key
    ensures forall e :: e in ctx[i + 1..] ==> e.key != ctx[i].key
  {
    forall e | e in ctx[..i] ensures e.key != ctx[i].key {
      var j :| 0 <= j < i && ctx[..i][j] == e;
      assert ctx[j] == e;
    }
    forall e | e in ctx[i + 1..] ensures e.key != ctx[i].key {
      var j :| 0 <= j < |ctx| - i - 1 && ctx[i + 1..][j] == e;
      assert ctx[i + 1 + j] == e;
    }
  }

  /** A subsequence holds only entries of the original, and keeps its keys unique. */
  lemma {:induction false} SubsequenceMembers(a: seq<Entry>, b: seq<Entry>)
    requires IsSubsequence(a, b)
    ensures forall e :: e in a ==> e in b
    ensures UniqueKeys(b) ==> UniqueKeys(a)
    decreases |b|
  {
    if a != [] {
      assert b != [];
      if a[0] == b[0] && IsSubsequence(a[1..], b[1..]) {
        SubsequenceMembers(a[1..], b[1..]);
        forall e | e in a ensures e in b {
          if e != a[0] {
            assert e in a[1..];
            assert e in b[1..];
          }
        }
        if UniqueKeys(b) {
          assert UniqueKeys(b[1..]);
          forall i, j | 0 <= i < j < |a| ensures a[i].key != a[j].key {
            assert a[j] == a[1..][j - 1];
            assert a[j] in b[1..];
            if i == 0 {
              var k :| 0 <= k < |b[1..]| && b[1..][k] == a[j];
              assert b[k + 1] == a[j];
            } else {
              assert a[i] == a[1..][i - 1];
            }
          }
        }
      } else {
        SubsequenceMembers(a, b[1..]);
        if UniqueKeys(b) {
          assert UniqueKeys(b[1..]);
        }
      }
    }
  }
}
