/**
 * `process_tokens` of include/clangd.h: skip the program name, keep the
 * essential flags, and keep the value that follows a flag taking a separate
 * value unless that value looks like a flag itself.
 */
module TokenFilter {
  import opened Classifier

  /** `string_view::starts_with('-')`. */
  predicate StartsWithDash(t: string) {
    |t| > 0 && t[0] == '-'
  }

  /** The arguments kept from `args`, the tokens after the program name. */
  function FilterArgs(args: seq<string>): seq<string>
    decreases |args|
  {
    if |args| == 0 then []
    else if !EssentialFlag(args[0]) then FilterArgs(args[1..])
    else if TakesValue(args[0]) && |args| > 1 && !StartsWithDash(args[1]) then
      [args[0], args[1]] + FilterArgs(args[2..])
    else [args[0]] + FilterArgs(args[1..])
  }

  /** What `process_tokens` appends for `tokens`: nothing for an empty range, otherwise the kept arguments after the first token. */
  function Processed(tokens: seq<string>): seq<string> {
    if |tokens| == 0 then [] else FilterArgs(tokens[1..])
  }

  /**
   * `process_tokens(tokens, filtered)`: walks the tokens once, stepping over a
   * value it has taken, and appends what it keeps to the caller's vector.
   */
  method ProcessTokens(tokens: seq<string>, filtered: seq<string>) returns (result: seq<string>)
    ensures result == filtered + Processed(tokens)
  {
    result := filtered;
    if |tokens| == 0 {
      return;
    }
    var i := 1;
    while i < |tokens|
      invariant 1 <= i <= |tokens|
      invariant result + FilterArgs(tokens[i..]) == filtered + FilterArgs(tokens[1..])
    {
      var arg := tokens[i];
      assert tokens[i..][1..] == tokens[i + 1..];
      if EssentialFlag(arg) {
        result := result + [arg];
        if TakesValue(arg) && i + 1 < |tokens| && !StartsWithDash(tokens[i + 1]) {
          assert tokens[i..][2..] == tokens[i + 2..];
          i := i + 1;
          result := result + [tokens[i]];
        }
      }
      i := i + 1;
    }
  }

  /** `sub` can be obtained from `s` by deleting elements. */
  predicate IsSubsequence(sub: seq<string>, s: seq<string>)
    decreases |s|
  {
    if |sub| == 0 then true
    else if |s| == 0 then false
    else (sub[0] == s[0] && IsSubsequence(sub[1..], s[1..])) || IsSubsequence(sub, s[1..])
  }

  lemma {:induction false} SubsequenceLength(sub: seq<string>, s: seq<string>)
    requires IsSubsequence(sub, s)
    ensures |sub| <= |s|
    decreases |s|
  {
    if |sub| > 0 {
      if sub[0] == s[0] && IsSubsequence(sub[1..], s[1..]) {
        SubsequenceLength(sub[1..], s[1..]);
      } else {
        SubsequenceLength(sub, s[1..]);
      }
    }
  }

  /** The kept arguments appear in the input in the same order. */
  lemma {:induction false} FilterArgsSubsequence(args: seq<string>)
    ensures IsSubsequence(FilterArgs(args), args)
    decreases |args|
  {
    if |args| > 0 {
      var out := FilterArgs(args);
      if !EssentialFlag(args[0]) {
        FilterArgsSubsequence(args[1..]);
        SkipOne(out, args);
      } else if TakesValue(args[0]) && |args| > 1 && !StartsWithDash(args[1]) {
        FilterArgsSubsequence(args[2..]);
        assert out[1..][1..] == FilterArgs(args[2..]);
        assert args[1..][1..] == args[2..];
      } else {
        FilterArgsSubsequence(args[1..]);
        assert out[1..] == FilterArgs(args[1..]);
      }
    }
  }

  lemma SkipOne(sub: seq<string>, s: seq<string>)
    requires |s| > 0 && IsSubsequence(sub, s[1..])
    ensures IsSubsequence(sub, s)
  {
  }

  /**
   * Prior contents stay as a prefix, the first token is never emitted, and
   * what is appended is an order-preserving selection from `tokens[1..]`, so
   * at most one token fewer than the input.
   */
  lemma ProcessedIsSelection(tokens: seq<string>, filtered: seq<string>)
    ensures var result := filtered + Processed(tokens);
      && result[..|filtered|] == filtered
      && (|tokens| > 0 ==> IsSubsequence(result[|filtered|..], tokens[1..]))
      && |result| - |filtered| <= if |tokens| == 0 then 0 else |tokens| - 1
  {
    var result := filtered + Processed(tokens);
    assert result[|filtered|..] == Processed(tokens);
    if |tokens| > 0 {
      FilterArgsSubsequence(tokens[1..]);
      SubsequenceLength(Processed(tokens), tokens[1..]);
    }
  }

  /**
   * Each element is essential, or it is a value that directly follows a flag
   * taking a separate value and does not start with `-`.
   */
  ghost predicate Justified(out: seq<string>) {
    forall k :: 0 <= k < |out| ==> JustifiedAt(out, k)
  }

  ghost predicate JustifiedAt(out: seq<string>, k: nat)
    requires k < |out|
  {
    EssentialFlag(out[k]) || (k > 0 && TakesValue(out[k - 1]) && !StartsWithDash(out[k]))
  }

  /** Every kept argument is essential or the value of the flag kept just before it. */
  lemma {:induction false} FilterArgsJustified(args: seq<string>)
    ensures Justified(FilterArgs(args))
    decreases |args|
  {
    if |args| > 0 {
      var out := FilterArgs(args);
      if !EssentialFlag(args[0]) {
        FilterArgsJustified(args[1..]);
      } else if TakesValue(args[0]) && |args| > 1 && !StartsWithDash(args[1]) {
        FilterArgsJustified(args[2..]);
        var rest := FilterArgs(args[2..]);
        forall k | 0 <= k < |out| ensures JustifiedAt(out, k) {
          if k >= 2 {
            assert JustifiedAt(rest, k - 2);
            assert out[k] == rest[k - 2];
            assert k - 2 > 0 ==> out[k - 1] == rest[k - 3];
          } else if k == 1 {
            assert out[0] == args[0] && out[1] == args[1];
          } else {
            assert out[0] == args[0];
          }
        }
      } else {
        FilterArgsJustified(args[1..]);
        var rest := FilterArgs(args[1..]);
        forall k | 0 <= k < |out| ensures JustifiedAt(out, k) {
          if k >= 1 {
            assert JustifiedAt(rest, k - 1);
            assert out[k] == rest[k - 1];
            assert k - 1 > 0 ==> out[k - 1] == rest[k - 2];
          } else {
            assert out[0] == args[0];
          }
        }
      }
    }
  }

  /** The essential elements of a token sequence, in order. */
  function Essentials(s: seq<string>): seq<string> {
    if |s| == 0 then []
    else if EssentialFlag(s[0]) then [s[0]] + Essentials(s[1..])
    else Essentials(s[1..])
  }

  /**
   * No essential argument is lost or duplicated: the essential tokens of the
   * output are exactly those of the input, in the same order. (A taken value
   * never starts with `-`, so it is never essential itself.)
   */
  lemma {:induction false} FilterArgsKeepsEssentials(args: seq<string>)
    ensures Essentials(FilterArgs(args)) == Essentials(args)
    decreases |args|
  {
    if |args| > 0 {
      if !EssentialFlag(args[0]) {
        FilterArgsKeepsEssentials(args[1..]);
      } else if TakesValue(args[0]) && |args| > 1 && !StartsWithDash(args[1]) {
        FilterArgsKeepsEssentials(args[2..]);
        if EssentialFlag(args[1]) {
          EssentialStartsWithDash(args[1]);
        }
        var out := FilterArgs(args);
        assert out[1..][1..] == FilterArgs(args[2..]);
        assert args[1..][1..] == args[2..];
      } else {
        FilterArgsKeepsEssentials(args[1..]);
        assert FilterArgs(args)[1..] == FilterArgs(args[1..]);
      }
    }
  }

  /** An essential token that was not taken as a value is always emitted. */
  lemma EssentialIsEmitted(tokens: seq<string>, i: nat)
    requires 0 < i < |tokens| && EssentialFlag(tokens[i])
    ensures tokens[i] in Processed(tokens)
  {
    FilterArgsKeepsEssentials(tokens[1..]);
    EssentialsElements(tokens[1..]);
    EssentialsElements(Processed(tokens));
    assert tokens[i] == tokens[1..][i - 1];
  }

  lemma {:induction false} EssentialsElements(s: seq<string>)
    ensures forall t :: t in Essentials(s) <==> t in s && EssentialFlag(t)
  {
    if |s| > 0 {
      EssentialsElements(s[1..]);
      assert forall t :: t in s <==> t == s[0] || t in s[1..];
    }
  }

  /**
   * The filter restarts at a token that starts with `-`: such a token is
   * never taken as the value of the flag before it, so the arguments in
   * front of it and those from it on are filtered independently.
   */
  lemma {:induction false} SplitBeforeDash(pre: seq<string>, s: seq<string>)
    requires |s| > 0 && StartsWithDash(s[0])
    ensures FilterArgs(pre + s) == FilterArgs(pre) + FilterArgs(s)
    decreases |pre|
  {
    if |pre| == 0 {
      assert pre + s == s;
    } else {
      var all := pre + s;
      assert all[0] == pre[0];
      assert all[1..] == pre[1..] + s;
      if |pre| == 1 {
        assert all[1] == s[0];
        assert pre[1..] == [];
        SplitBeforeDash(pre[1..], s);
      } else {
        assert all[1] == pre[1];
        assert all[2..] == pre[2..] + s;
        SplitBeforeDash(pre[1..], s);
        SplitBeforeDash(pre[2..], s);
      }
    }
  }

  /**
   * The value after an exact flag that takes one is kept right after that
   * flag whenever it does not start with `-`, wherever the pair stands.
   */
  lemma SeparatedValueKept(pre: seq<string>, f: string, v: string, rest: seq<string>)
    requires TakesValue(f) && !StartsWithDash(v)
    ensures FilterArgs(pre + [f, v] + rest) == FilterArgs(pre) + [f, v] + FilterArgs(rest)
  {
    ValueFlagIsEssential(f);
    EssentialStartsWithDash(f);
    var tail := [f, v] + rest;
    assert pre + [f, v] + rest == pre + tail;
    assert tail[1..][1..] == rest;
    SplitBeforeDash(pre, tail);
  }

  /** A flag taking a value with nothing after it is kept on its own. */
  lemma DanglingValueFlag(prior: seq<string>, flag: string)
    requires TakesValue(flag)
    ensures FilterArgs(prior + [flag]) == FilterArgs(prior) + [flag]
    ensures Essentials(FilterArgs(prior + [flag])) == Essentials(prior) + [flag]
    ensures FilterArgs([flag]) == [flag]
  {
    ValueFlagIsEssential(flag);
    EssentialStartsWithDash(flag);
    SplitBeforeDash(prior, [flag]);
    FilterArgsKeepsEssentials(prior + [flag]);
    EssentialsAppend(prior, [flag]);
  }

  lemma {:induction false} EssentialsAppend(a: seq<string>, b: seq<string>)
    ensures Essentials(a + b) == Essentials(a) + Essentials(b)
  {
    if |a| > 0 {
      EssentialsAppend(a[1..], b);
      assert (a + b)[1..] == a[1..] + b;
    } else {
      assert a + b == b;
    }
  }
}
