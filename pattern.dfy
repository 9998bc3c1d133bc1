/**
 * `preg_match('/^(.*)@(.*)$/', $subject, $matches)` as the validator uses it,
 * with PCRE's default options: `.` matches every character except a line feed,
 * `^` anchors at the start, and `$` (no D modifier) matches at the end of the
 * subject or just before one final line feed. The first group is greedy, so of
 * all the ways to match, PCRE reports the one whose first group is longest.
 */
module Pattern {
  import opened Php

  /** Position of the last '@' in `t`, if there is one. */
  function LastAt(t: string): (k: Option<nat>)
    ensures k.None? <==> '@' !in t
    ensures k.Some? ==> k.value < |t| && t[k.value] == '@'
    ensures k.Some? ==> forall j :: k.value < j < |t| ==> t[j] != '@'
  {
    if t == [] then None
    else if t[|t| - 1] == '@' then Some(|t| - 1)
    else
      assert t == t[..|t| - 1] + [t[|t| - 1]];
      LastAt(t[..|t| - 1])
  }

  /** The part of the subject that `(.*)@(.*)` has to cover for `$` to match. */
  function DropFinalLineFeed(t: string): (b: string)
    ensures b == t || t == b + "\n"
    ensures b != t ==> t != [] && t[|t| - 1] == '\n'
  {
    if t != [] && t[|t| - 1] == '\n' then t[..|t| - 1] else t
  }

  /** The two captured groups, or None when the pattern does not match. */
  function MatchAddress(t: string): (m: Option<(string, string)>)
  {
    var b := DropFinalLineFeed(t);
    if '\n' in b then None
    else
      match LastAt(b)
      case None => None
      case Some(k) => Some((b[..k], b[k + 1..]))
  }

  /** Reference semantics of the pattern: `(u, h)` is one way for it to match `t`
      (leaving greediness aside). */
  ghost predicate CanMatch(t: string, u: string, h: string) {
    && '\n' !in u && '\n' !in h
    && (t == u + "@" + h || t == u + "@" + h + "\n")
  }

  /** Every way to match covers exactly the subject without its final line feed. */
  lemma CanMatchCoversBody(t: string, u: string, h: string)
    requires CanMatch(t, u, h)
    ensures DropFinalLineFeed(t) == u + "@" + h
  {
    var w := u + "@" + h;
    assert w[|w| - 1] != '\n' by {
      if h == [] { assert w[|w| - 1] == '@'; } else { assert w[|w| - 1] == h[|h| - 1]; }
    }
    if t == w + "\n" {
      assert t[..|t| - 1] == w;
    }
  }

  /** The captured groups form a match. */
  lemma MatchAddressSound(t: string)
    ensures MatchAddress(t).Some? ==> CanMatch(t, MatchAddress(t).value.0, MatchAddress(t).value.1)
  {
    var b := DropFinalLineFeed(t);
    if MatchAddress(t).Some? {
      var k := LastAt(b).value;
      var u, h := b[..k], b[k + 1..];
      assert b == u + "@" + h;
      assert '\n' !in u && '\n' !in h by {
        forall j | 0 <= j < |u| ensures u[j] != '\n' { assert u[j] == b[j]; }
        forall j | 0 <= j < |h| ensures h[j] != '\n' { assert h[j] == b[k + 1 + j]; }
      }
    }
  }

  /** No match is reported exactly when there is no way to match, and the one
      reported is the greedy one: no other match has a longer first group. */
  lemma MatchAddressComplete(t: string, u: string, h: string)
    requires CanMatch(t, u, h)
    ensures MatchAddress(t).Some?
    ensures |u| <= |MatchAddress(t).value.0|
  {
    var b := DropFinalLineFeed(t);
    CanMatchCoversBody(t, u, h);
    assert b[|u|] == '@';
    assert '\n' !in b by {
      forall j | 0 <= j < |b| ensures b[j] != '\n' {
        if j < |u| { assert b[j] == u[j]; }
        else if j > |u| { assert b[j] == h[j - |u| - 1]; }
      }
    }
  }

  /** Both groups are determined by the length of the first, so the greedy match
      is the only match with a first group that long. */
  lemma CanMatchDeterminedByPrefix(t: string, u: string, h: string, u': string, h': string)
    requires CanMatch(t, u, h) && CanMatch(t, u', h') && |u| == |u'|
    ensures u == u' && h == h'
  {
    CanMatchCoversBody(t, u, h);
    CanMatchCoversBody(t, u', h');
    var b := DropFinalLineFeed(t);
    assert u == b[..|u|] && u' == b[..|u'|];
    assert h == b[|u| + 1..] && h' == b[|u'| + 1..];
  }

  /** In a joined string whose tail has no '@', the joining '@' is the last one. */
  lemma LastAtOfJoin(y: string, h: string)
    requires '@' !in h
    ensures LastAt(y + "@" + h) == Some(|y|)
  {
    var t := y + "@" + h;
    assert t[|y|] == '@';
    assert LastAt(t).Some?;
  }

  /** The captured groups: what precedes the last '@' and what follows it, with
      no line feed in either. */
  lemma MatchAddressSplitsAtLastAt(t: string)
    requires MatchAddress(t).Some?
    ensures DropFinalLineFeed(t) == MatchAddress(t).value.0 + "@" + MatchAddress(t).value.1
    ensures '\n' !in MatchAddress(t).value.0 && '\n' !in MatchAddress(t).value.1
    ensures '@' !in MatchAddress(t).value.1
  {
    MatchAddressSound(t);
    var b := DropFinalLineFeed(t);
    var k := LastAt(b).value;
    var h := b[k + 1..];
    forall j | 0 <= j < |h| ensures h[j] != '@' { assert h[j] == b[k + 1 + j]; }
  }

  /** Joining two groups that the pattern can capture and matching gives them back. */
  lemma MatchAddressOfJoin(u: string, h: string)
    requires '\n' !in u && '\n' !in h && '@' !in h
    ensures MatchAddress(u + "@" + h) == Some((u, h))
  {
    var t := u + "@" + h;
    assert t[|t| - 1] != '\n' by {
      if h == [] { assert t[|t| - 1] == '@'; } else { assert t[|t| - 1] == h[|h| - 1]; }
    }
    assert '\n' !in t by {
      forall j | 0 <= j < |t| ensures t[j] != '\n' {
        if j < |u| { assert t[j] == u[j]; }
        else if j > |u| { assert t[j] == h[j - |u| - 1]; }
      }
    }
    LastAtOfJoin(u, h);
    assert t[..|u|] == u && t[|u| + 1..] == h;
  }

  /** Proof helper: regrouping a concatenation around the joining '@'. */
  lemma JoinRegroup(p: string, u: string, h: string)
    ensures p + (u + "@" + h) == (p + u) + "@" + h
  {
  }

  /** Matching a suffix of `u + "@" + h` (one that does not end in a line feed)
      captures exactly `h` as the second group when `h` has no '@'. */
  lemma MatchOfSuffixCapturesTail(u: string, h: string, pre: string, t: string)
    requires '@' !in h
    requires u + "@" + h == pre + t
    requires t == [] || t[|t| - 1] != '\n'
    requires MatchAddress(t).Some?
    ensures MatchAddress(t).value.1 == h
  {
    var s := u + "@" + h;
    var u', h' := MatchAddress(t).value.0, MatchAddress(t).value.1;
    assert t == u' + "@" + h' && '@' !in h' by {
      MatchAddressSplitsAtLastAt(t);
    }
    assert s == (pre + u') + "@" + h' by { JoinRegroup(pre, u', h'); }
    assert |pre + u'| == |u| by {
      LastAtOfJoin(pre + u', h');
      LastAtOfJoin(u, h);
    }
    assert h' == s[|u| + 1..] == h;
  }
}
