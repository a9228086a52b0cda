/**
 * Version ordering. Both scripts compare versions with `packaging.version`
 * (the "Version scheme" of PEP 440), a library outside this model. The
 * resolvers therefore take the ordering as a parameter `less`, where
 * `less(a, b)` means that version `a` is older than version `b`
 * (`version.parse(a) < version.parse(b)` in the scripts). The laws below are
 * what a parsed-version ordering satisfies: versions are compared through a
 * sort key, so "equal" versions (such as `1.2` and `1.2.0`) form classes.
 *
 * A concrete dot-numeric ordering, with missing trailing components read as
 * zero, is given as an instance and proved to obey the laws.
 */
module Versions {
  import Text

  type VersionLess = (string, string) -> bool

  ghost predicate Irreflexive(less: VersionLess) {
    forall a :: !less(a, a)
  }

  ghost predicate Transitive(less: VersionLess) {
    forall a, b, c :: less(a, b) && less(b, c) ==> less(a, c)
  }

  /** If `a < c` then every `b` lies above `a` or below `c`: being equal is transitive. */
  ghost predicate NegativelyTransitive(less: VersionLess) {
    forall a, b, c :: less(a, c) ==> less(a, b) || less(b, c)
  }

  ghost predicate StrictWeakOrder(less: VersionLess) {
    Irreflexive(less) && Transitive(less) && NegativelyTransitive(less)
  }

  // ---------------------------------------------------------------------------
  // A dot-numeric instance: "4.10.2" is split at '.', each piece read as a
  // decimal number, and the keys compared piece by piece, a missing piece
  // counting as 0. It covers plain release versions only; pieces that are not
  // decimal digits are not given PEP 440's meaning.
  // ---------------------------------------------------------------------------

  function DigitValue(c: char): nat {
    if '0' <= c <= '9' then (c - '0') as nat else 0
  }

  function NumberValue(s: string): nat {
    if s == [] then 0 else NumberValue(s[..|s| - 1]) * 10 + DigitValue(s[|s| - 1])
  }

  function KeyOf(parts: seq<string>): (key: seq<nat>)
    ensures |key| == |parts|
  {
    if parts == [] then [] else [NumberValue(parts[0])] + KeyOf(parts[1..])
  }

  function Key(v: string): seq<nat> {
    KeyOf(Text.SplitOn(v, '.'))
  }

  function Head(k: seq<nat>): nat {
    if k == [] then 0 else k[0]
  }

  function Tail(k: seq<nat>): seq<nat> {
    if k == [] then [] else k[1..]
  }

  /** Lexicographic order on keys, a missing component counting as 0. */
  predicate KeyLess(a: seq<nat>, b: seq<nat>)
    decreases |a| + |b|
  {
    if a == [] && b == [] then false
    else Head(a) < Head(b) || (Head(a) == Head(b) && KeyLess(Tail(a), Tail(b)))
  }

  predicate NumericLess(a: string, b: string) {
    KeyLess(Key(a), Key(b))
  }

  lemma {:induction false} KeyLessIrreflexive(a: seq<nat>)
    ensures !KeyLess(a, a)
    decreases |a|
  {
    if a != [] {
      KeyLessIrreflexive(Tail(a));
    }
  }

  lemma {:induction false} KeyLessTransitive(a: seq<nat>, b: seq<nat>, c: seq<nat>)
    requires KeyLess(a, b) && KeyLess(b, c)
    ensures KeyLess(a, c)
    decreases |a| + |b| + |c|
  {
    if Head(a) == Head(b) == Head(c) {
      KeyLessTransitive(Tail(a), Tail(b), Tail(c));
    }
  }

  lemma {:induction false} KeyLessNegativelyTransitive(a: seq<nat>, b: seq<nat>, c: seq<nat>)
    requires KeyLess(a, c)
    ensures KeyLess(a, b) || KeyLess(b, c)
    decreases |a| + |b| + |c|
  {
    if Head(a) == Head(b) == Head(c) {
      KeyLessNegativelyTransitive(Tail(a), Tail(b), Tail(c));
    }
  }

  /** The dot-numeric ordering is a lawful version ordering. */
  lemma NumericLessIsStrictWeakOrder()
    ensures StrictWeakOrder(NumericLess)
  {
    forall a: string
      ensures !NumericLess(a, a)
    {
      KeyLessIrreflexive(Key(a));
    }
    forall a: string, b: string, c: string | NumericLess(a, b) && NumericLess(b, c)
      ensures NumericLess(a, c)
    {
      KeyLessTransitive(Key(a), Key(b), Key(c));
    }
    forall a: string, b: string, c: string | NumericLess(a, c)
      ensures NumericLess(a, b) || NumericLess(b, c)
    {
      KeyLessNegativelyTransitive(Key(a), Key(b), Key(c));
    }
  }

  /** The key of a version written as dot-joined components. */
  lemma KeyOfJoined(parts: seq<string>)
    requires |parts| >= 1
    requires forall k :: 0 <= k < |parts| ==> '.' !in parts[k]
    ensures Key(Text.JoinWith(parts, '.')) == KeyOf(parts)
  {
    Text.SplitJoin(parts, '.');
  }

  lemma {:induction false} KeyOfAppend(parts: seq<string>, p: string)
    ensures KeyOf(parts + [p]) == KeyOf(parts) + [NumberValue(p)]
    decreases |parts|
  {
    if parts != [] {
      assert (parts + [p])[1..] == parts[1..] + [p];
      KeyOfAppend(parts[1..], p);
    }
  }

  /** Appending ".t" to a version appends the component `t` to its key. */
  lemma KeyExtended(v: string, t: string)
    requires '.' !in t
    ensures Key(v + "." + t) == Key(v) + [NumberValue(t)]
  {
    Text.SplitOnAppend(v, '.', t);
    KeyOfAppend(Text.SplitOn(v, '.'), t);
  }

  lemma {:induction false} KeyLessLastComponent(k: seq<nat>, x: nat, y: nat)
    ensures KeyLess(k + [x], k + [y]) <==> x < y
    decreases |k|
  {
    if k != [] {
      assert Tail(k + [x]) == Tail(k) + [x] && Tail(k + [y]) == Tail(k) + [y];
      KeyLessLastComponent(Tail(k), x, y);
    }
  }

  lemma {:induction false} KeyLessZeroPadding(k: seq<nat>)
    ensures !KeyLess(k, k + [0]) && !KeyLess(k + [0], k)
    decreases |k|
  {
    if k != [] {
      assert Tail(k + [0]) == Tail(k) + [0];
      KeyLessZeroPadding(Tail(k));
    }
  }

  lemma {:induction false} KeyLessNonZeroPadding(k: seq<nat>, x: nat)
    requires x > 0
    ensures KeyLess(k, k + [x])
    decreases |k|
  {
    if k != [] {
      assert Tail(k + [x]) == Tail(k) + [x];
      KeyLessNonZeroPadding(Tail(k), x);
    }
  }

  /** Versions that differ only in their last component compare by that component's number. */
  lemma LastComponentDecides(v: string, x: string, y: string)
    requires '.' !in x && '.' !in y
    ensures NumericLess(v + "." + x, v + "." + y) <==> NumberValue(x) < NumberValue(y)
  {
    KeyExtended(v, x);
    KeyExtended(v, y);
    KeyLessLastComponent(Key(v), NumberValue(x), NumberValue(y));
  }

  /** Components compare as numbers, not as text: "v.9" is older than "v.10". */
  lemma ComponentsAreNumeric(v: string)
    ensures NumericLess(v + ".9", v + ".10") && !NumericLess(v + ".10", v + ".9")
  {
    assert v + ".9" == v + "." + "9" && v + ".10" == v + "." + "10";
    assert NumberValue("10") == 10 by {
      assert "10"[..1] == "1";
    }
    LastComponentDecides(v, "9", "10");
    LastComponentDecides(v, "10", "9");
  }

  /** A missing component counts as zero: "v" and "v.0" are equal versions. */
  lemma TrailingZeroIsEqual(v: string)
    ensures !NumericLess(v, v + ".0") && !NumericLess(v + ".0", v)
  {
    assert v + ".0" == v + "." + "0";
    KeyExtended(v, "0");
    assert NumberValue("0") == 0;
    KeyLessZeroPadding(Key(v));
  }

  /** An extra non-zero component makes a version newer: "v" is older than "v.t". */
  lemma ExtraComponentIsNewer(v: string, t: string)
    requires '.' !in t && NumberValue(t) > 0
    ensures NumericLess(v, v + "." + t)
  {
    KeyExtended(v, t);
    KeyLessNonZeroPadding(Key(v), NumberValue(t));
  }

  lemma {:induction false} KeyLessSameLengthExtend(a: seq<nat>, b: seq<nat>, x: nat)
    requires |a| == |b| && KeyLess(a, b)
    ensures KeyLess(a + [x], b + [x])
    decreases |a|
  {
    assert Head(a + [x]) == Head(a) && Head(b + [x]) == Head(b);
    if Head(a) == Head(b) {
      assert Tail(a + [x]) == Tail(a) + [x] && Tail(b + [x]) == Tail(b) + [x];
      KeyLessSameLengthExtend(Tail(a), Tail(b), x);
    }
  }

  /** A larger earlier component decides, whatever equal component follows: "v.2.t" is older than "v.3.t". */
  lemma EarlierComponentDecides(v: string, x: string, y: string, t: string)
    requires '.' !in x && '.' !in y && '.' !in t
    requires NumberValue(x) < NumberValue(y)
    ensures NumericLess(v + "." + x + "." + t, v + "." + y + "." + t)
  {
    KeyExtended(v, x);
    KeyExtended(v, y);
    KeyExtended(v + "." + x, t);
    KeyExtended(v + "." + y, t);
    KeyLessLastComponent(Key(v), NumberValue(x), NumberValue(y));
    KeyLessSameLengthExtend(Key(v + "." + x), Key(v + "." + y), NumberValue(t));
  }
}
