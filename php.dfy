/**
 * The small part of PHP's runtime semantics the validator relies on: the kinds of
 * value `isValid` may be handed (and `is_string` on them), truthiness as used by
 * `!$hostname`, and the built-in `trim` with its default character list.
 *
 * A PHP string is a sequence of bytes; here it is a Dafny `string` holding one
 * character per byte. Every comparison the validator makes is against an ASCII
 * character, so nothing depends on how bytes above 0x7F are rendered.
 */
module Php {

  datatype Option<T> = None | Some(value: T)

  /** A PHP value as `isValid($value)` may receive it. Floats and resources are not
      modelled separately: like every other non-string they take the `is_string`
      failure branch. */
  datatype Value =
    | Null
    | Bool(b: bool)
    | Int(i: int)
    | Str(s: string)
    | Array(elems: seq<Value>)
    | Object

  /** PHP's conversion to boolean, as applied by `!` and `if`. */
  predicate Truthy(v: Value) {
    match v
    case Null => false
    case Bool(b) => b
    case Int(i) => i != 0
    case Str(s) => s != "" && s != "0"
    case Array(elems) => elems != []
    case Object => true
  }

  /** The characters `trim` strips when no list is given: " \t\n\r\0\x0B". */
  predicate IsTrimSpace(c: char) {
    c == ' ' || c == '\t' || c == '\n' || c == '\r' || c == '\0' || c == '\U{000B}'
  }

  predicate AllTrimSpace(s: string) {
    forall i :: 0 <= i < |s| ==> IsTrimSpace(s[i])
  }

  /** A string with no strippable character at either end: what `trim` returns. */
  predicate IsTrimmed(s: string) {
    s == [] || (!IsTrimSpace(s[0]) && !IsTrimSpace(s[|s| - 1]))
  }

  /** `ltrim`: drops strippable characters from the front until a kept one. */
  function TrimLeft(s: string): (r: string)
    ensures |r| <= |s|
    ensures r == [] || !IsTrimSpace(r[0])
  {
    if s != [] && IsTrimSpace(s[0]) then TrimLeft(s[1..]) else s
  }

  /** `rtrim`: drops strippable characters from the back until a kept one. */
  function TrimRight(s: string): (r: string)
    ensures |r| <= |s|
    ensures r != [] ==> r[0] == s[0]
    ensures r == [] || !IsTrimSpace(r[|r| - 1])
  {
    if s != [] && IsTrimSpace(s[|s| - 1]) then TrimRight(s[..|s| - 1]) else s
  }

  /** `trim`: the string with strippable characters removed from both ends. */
  function Trim(s: string): (r: string)
    ensures IsTrimmed(r)
    ensures |r| <= |s|
  {
    TrimRight(TrimLeft(s))
  }

  /** `ltrim` only removes a strippable prefix. */
  lemma {:induction false} TrimLeftCut(s: string) returns (p: string)
    ensures s == p + TrimLeft(s) && AllTrimSpace(p)
  {
    if s != [] && IsTrimSpace(s[0]) {
      var p' := TrimLeftCut(s[1..]);
      p := [s[0]] + p';
      assert s == [s[0]] + (p' + TrimLeft(s[1..]));
      AllTrimSpaceAppend([s[0]], p');
    } else {
      p := [];
    }
  }

  /** `rtrim` only removes a strippable suffix. */
  lemma {:induction false} TrimRightCut(s: string) returns (q: string)
    ensures s == TrimRight(s) + q && AllTrimSpace(q)
  {
    if s != [] && IsTrimSpace(s[|s| - 1]) {
      var q' := TrimRightCut(s[..|s| - 1]);
      q := q' + [s[|s| - 1]];
      assert s == s[..|s| - 1] + [s[|s| - 1]];
    } else {
      q := [];
    }
  }

  /** What `trim` removes is strippable and what it keeps is one contiguous piece
      of the input. */
  lemma TrimCut(s: string) returns (p: string, q: string)
    ensures s == p + Trim(s) + q && AllTrimSpace(p) && AllTrimSpace(q)
  {
    p := TrimLeftCut(s);
    q := TrimRightCut(TrimLeft(s));
  }

  /** Strippable characters in front of a string that starts with a kept one
      disappear under `ltrim`. */
  lemma {:induction false} TrimLeftPadding(p: string, x: string)
    requires AllTrimSpace(p)
    requires x == [] || !IsTrimSpace(x[0])
    ensures TrimLeft(p + x) == x
  {
    if p != [] {
      assert (p + x)[1..] == p[1..] + x;
      TrimLeftPadding(p[1..], x);
    } else {
      assert p + x == x;
    }
  }

  /** Strippable characters after a string that ends with a kept one disappear
      under `rtrim`. */
  lemma {:induction false} TrimRightPadding(x: string, q: string)
    requires AllTrimSpace(q)
    requires x == [] || !IsTrimSpace(x[|x| - 1])
    ensures TrimRight(x + q) == x
  {
    if q != [] {
      assert (x + q)[..|x + q| - 1] == x + q[..|q| - 1];
      TrimRightPadding(x, q[..|q| - 1]);
    } else {
      assert x + q == x;
    }
  }

  /** `trim` is determined by its specification: whatever trimmed string is
      surrounded by strippable characters, `trim` gives back exactly it. */
  lemma TrimUnique(p: string, r: string, q: string)
    requires AllTrimSpace(p) && AllTrimSpace(q) && IsTrimmed(r)
    ensures Trim(p + r + q) == r
  {
    if r == [] {
      assert p + r + q == p + q + [];
      AllTrimSpaceAppend(p, q);
      TrimLeftPadding(p + q, []);
    } else {
      assert p + r + q == p + (r + q);
      TrimLeftPadding(p, r + q);
      TrimRightPadding(r, q);
    }
  }

  /** Adding strippable characters at either end does not change what `trim`
      returns. */
  lemma TrimIgnoresPadding(p: string, s: string, q: string)
    requires AllTrimSpace(p) && AllTrimSpace(q)
    ensures Trim(p + s + q) == Trim(s)
  {
    var t := Trim(s);
    var a, b := TrimCut(s);
    var padded := (p + a) + t + (b + q);
    assert p + s + q == padded by { Regroup(p, a, t, b, q); }
    assert Trim(padded) == t by {
      AllTrimSpaceAppend(p, a);
      AllTrimSpaceAppend(b, q);
      TrimUnique(p + a, t, b + q);
    }
  }

  /** A string that ends with a kept character only loses strippable characters
      at its front. */
  lemma TrimOfKeptLast(s: string) returns (p: string)
    requires s != [] && !IsTrimSpace(s[|s| - 1])
    ensures s == p + Trim(s)
  {
    var q;
    p, q := TrimCut(s);
    assert s == p + Trim(s) + q;
  }

  /** `trim` is idempotent. */
  lemma TrimIdempotent(s: string)
    ensures Trim(Trim(s)) == Trim(s)
  {
    assert [] + Trim(s) + [] == Trim(s);
    TrimUnique([], Trim(s), []);
  }

  /** Proof helper: strippable runs concatenate. */
  lemma AllTrimSpaceAppend(x: string, y: string)
    requires AllTrimSpace(x) && AllTrimSpace(y)
    ensures AllTrimSpace(x + y)
  {
    forall i | 0 <= i < |x + y| ensures IsTrimSpace((x + y)[i]) {
      if i >= |x| { assert (x + y)[i] == y[i - |x|]; }
    }
  }

  /** Proof helper: regrouping a five-part concatenation. */
  lemma Regroup(p: string, a: string, t: string, b: string, q: string)
    ensures p + (a + t + b) + q == (p + a) + t + (b + q)
  {
    assert p + (a + t + b) + q == p + a + t + b + q;
  }
}
