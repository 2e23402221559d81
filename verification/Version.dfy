/** Package versions and the order in which they are compared
    (src/modules/version.py). */
module Versions {
  import opened Common

  /** The components of a version.  `build` takes no part in any comparison, so
      two versions may differ and yet compare as equal. */
  datatype Version = Version(release: seq<nat>, build: seq<nat>, branch: Option<seq<nat>>, timestr: Option<string>)

  // ---------------------------------------------------------------- sequences

  /** Python's `<` on lists of numbers. */
  predicate LexLess(a: seq<nat>, b: seq<nat>) {
    b != [] && (a == [] || a[0] < b[0] || (a[0] == b[0] && LexLess(a[1..], b[1..])))
  }

  lemma {:induction false} LexIrreflexive(a: seq<nat>)
    ensures !LexLess(a, a)
  {
    if a != [] { LexIrreflexive(a[1..]); }
  }

  lemma {:induction false} LexTransitive(a: seq<nat>, b: seq<nat>, c: seq<nat>)
    requires LexLess(a, b) && LexLess(b, c)
    ensures LexLess(a, c)
  {
    if a != [] && a[0] == b[0] == c[0] { LexTransitive(a[1..], b[1..], c[1..]); }
  }

  lemma {:induction false} LexTotal(a: seq<nat>, b: seq<nat>)
    ensures a == b || LexLess(a, b) || LexLess(b, a)
  {
    if a != [] && b != [] && a[0] == b[0] {
      LexTotal(a[1..], b[1..]);
      assert a == [a[0]] + a[1..] && b == [b[0]] + b[1..];
    }
  }

  function Codes(s: string): (r: seq<nat>)
    ensures |r| == |s| && forall i :: 0 <= i < |s| ==> r[i] == s[i] as nat
  {
    seq(|s|, i requires 0 <= i < |s| => s[i] as nat)
  }

  lemma CodesInjective(s: string, t: string)
    requires Codes(s) == Codes(t)
    ensures s == t
  {
    assert forall i :: 0 <= i < |s| ==> s[i] as nat == Codes(s)[i] == Codes(t)[i] == t[i] as nat;
  }

  // ----------------------------------------------------------------- versions

  /** `None` comes before every present component. */
  predicate OptLess(a: Option<seq<nat>>, b: Option<seq<nat>>) {
    b.Some? && (a.None? || LexLess(a.value, b.value))
  }

  function TimeCodes(v: Version): Option<seq<nat>> {
    if v.timestr.None? then None else Some(Codes(v.timestr.value))
  }

  /** `Version.__lt__`. */
  predicate Less(a: Version, b: Version) {
    if LexLess(a.release, b.release) then true
    else if a.release != b.release then false
    else if a.branch != b.branch then OptLess(a.branch, b.branch)
    else a.timestr != b.timestr && OptLess(TimeCodes(a), TimeCodes(b))
  }

  /** `Version.__eq__`: the build release is ignored. */
  predicate SameKey(a: Version, b: Version) {
    a.release == b.release && a.branch == b.branch && a.timestr == b.timestr
  }

  lemma OptTransitive(a: Option<seq<nat>>, b: Option<seq<nat>>, c: Option<seq<nat>>)
    requires OptLess(a, b) && OptLess(b, c)
    ensures OptLess(a, c)
  {
    if a.Some? { LexTransitive(a.value, b.value, c.value); }
  }

  lemma OptIrreflexive(a: Option<seq<nat>>)
    ensures !OptLess(a, a)
  {
    if a.Some? { LexIrreflexive(a.value); }
  }

  lemma LessIrreflexive(a: Version)
    ensures !Less(a, a)
  {
    LexIrreflexive(a.release);
  }

  lemma LessTransitive(a: Version, b: Version, c: Version)
    requires Less(a, b) && Less(b, c)
    ensures Less(a, c)
  {
    LexIrreflexive(a.release);
    LexIrreflexive(b.release);
    if LexLess(a.release, b.release) && LexLess(b.release, c.release) {
      LexTransitive(a.release, b.release, c.release);
    }
    if a.branch != b.branch && b.branch != c.branch && OptLess(a.branch, b.branch) && OptLess(b.branch, c.branch) {
      OptTransitive(a.branch, b.branch, c.branch);
      OptIrreflexive(a.branch);
    }
    if OptLess(TimeCodes(a), TimeCodes(b)) && OptLess(TimeCodes(b), TimeCodes(c)) {
      OptTransitive(TimeCodes(a), TimeCodes(b), TimeCodes(c));
      OptIrreflexive(TimeCodes(a));
    }
  }

  /** Exactly one of `<`, `>` and `==` holds between two versions: sorting by
      `__lt__` leaves only versions that are `__eq__` in an undetermined order. */
  lemma LessTrichotomy(a: Version, b: Version)
    ensures Less(a, b) || Less(b, a) || SameKey(a, b)
    ensures SameKey(a, b) ==> !Less(a, b) && !Less(b, a)
    ensures !(Less(a, b) && Less(b, a))
  {
    LessIrreflexive(a);
    if Less(a, b) && Less(b, a) { LessTransitive(a, b, a); }
    LexTotal(a.release, b.release);
    LexIrreflexive(a.release);
    if a.branch.Some? && b.branch.Some? { LexTotal(a.branch.value, b.branch.value); }
    if a.timestr.Some? && b.timestr.Some? {
      LexTotal(Codes(a.timestr.value), Codes(b.timestr.value));
      if Codes(a.timestr.value) == Codes(b.timestr.value) { CodesInjective(a.timestr.value, b.timestr.value); }
    }
  }

  /** Of two lists the first comes first when it is a beginning of the other, or has
      the lesser number where they begin to differ. */
  ghost predicate ComesFirst(a: seq<nat>, b: seq<nat>) {
    exists k :: 0 <= k < |b| && k <= |a| && a[..k] == b[..k] && (k == |a| || a[k] < b[k])
  }

  lemma {:induction false} LexFirst(a: seq<nat>, b: seq<nat>)
    ensures LexLess(a, b) <==> ComesFirst(a, b)
  {
    if a != [] && b != [] && a[0] == b[0] {
      LexFirst(a[1..], b[1..]);
      if ComesFirst(a[1..], b[1..]) {
        var x, y := a[1..], b[1..];
        var k :| 0 <= k < |y| && k <= |x| && x[..k] == y[..k] && (k == |x| || x[k] < y[k]);
        assert a[..k + 1] == [a[0]] + x[..k] && b[..k + 1] == [b[0]] + y[..k];
      }
      if ComesFirst(a, b) {
        var k :| 0 <= k < |b| && k <= |a| && a[..k] == b[..k] && (k == |a| || a[k] < b[k]);
        assert k > 0;
        assert a[1..][..k - 1] == a[..k][1..] && b[1..][..k - 1] == b[..k][1..];
      }
    } else if b != [] {
      assert a[..0] == b[..0];
      if a != [] { assert forall k :: 0 < k <= |a| && k < |b| ==> a[..k][0] != b[..k][0]; }
    }
  }

  /** What decides between two versions: the releases; when these are equal, the
      branches; and when these are, too, the timestamps.  A component that is absent
      comes before any that is there. */
  lemma LessMeans(a: Version, b: Version)
    ensures a.release != b.release ==> (Less(a, b) <==> ComesFirst(a.release, b.release))
    ensures a.release == b.release && a.branch != b.branch ==>
              (Less(a, b) <==> a.branch.None? || (b.branch.Some? && ComesFirst(a.branch.value, b.branch.value)))
    ensures a.release == b.release && a.branch == b.branch && a.timestr != b.timestr ==>
              (Less(a, b) <==>
               a.timestr.None? || (b.timestr.Some? && ComesFirst(Codes(a.timestr.value), Codes(b.timestr.value))))
  {
    LexFirst(a.release, b.release);
    LexIrreflexive(a.release);
    if a.branch.Some? && b.branch.Some? { LexFirst(a.branch.value, b.branch.value); }
    if a.timestr.Some? && b.timestr.Some? { LexFirst(Codes(a.timestr.value), Codes(b.timestr.value)); }
  }

  /** `a` may stand before `b` in an ascending list. */
  predicate Le(a: Version, b: Version) {
    !Less(b, a)
  }

  lemma LeTransitive(a: Version, b: Version, c: Version)
    requires Le(a, b) && Le(b, c)
    ensures Le(a, c)
  {
    LessTrichotomy(a, b);
    LessTrichotomy(b, c);
    if Less(c, a) {
      if Less(a, b) { LessTransitive(c, a, b); }
      else if Less(b, c) { LessTransitive(b, c, a); }
      else { LessTrichotomy(c, a); }
    }
  }
}
