/** Comparison of version numbers of different lengths. */
module VersionOrder {
  import opened Wrappers

  type Version = seq<nat>

  /** A missing component counts as zero. */
  function At(v: Version, i: nat): nat {
    if i < |v| then v[i] else 0
  }

  ghost predicate LessAt(a: Version, b: Version, i: nat) {
    At(a, i) < At(b, i) && forall j :: 0 <= j < i ==> At(a, j) == At(b, j)
  }

  /** Lexicographic order of the versions continued with zeros. */
  ghost predicate Less(a: Version, b: Version) {
    exists i: nat :: LessAt(a, b, i)
  }

  ghost predicate Same(a: Version, b: Version) {
    forall i: nat :: At(a, i) == At(b, i)
  }

  /** The sign says which version is greater. */
  method CompareNumbers(a: Version, b: Version) returns (r: int)
    ensures r in {-1, 0, 1}
    ensures r == 1 <==> Less(b, a)
    ensures r == -1 <==> Less(a, b)
    ensures r == 0 <==> Same(a, b)
  {
    var max := if |a| > |b| then |a| else |b|;
    var min := if |a| < |b| then |a| else |b|;
    for i := 0 to min
      invariant forall j :: 0 <= j < i ==> At(a, j) == At(b, j)
    {
      if a[i] > b[i] { Decided(b, a, i); return 1; }
      if a[i] < b[i] { Decided(a, b, i); return -1; }
    }
    if min != max {
      var longest := if |a| == max then a else b;
      var comparisonResult := if |a| == max then 1 else -1;
      for i := min to max
        invariant forall j :: 0 <= j < i ==> At(a, j) == At(b, j)
      {
        if longest[i] > 0 {
          if |a| == max { Decided(b, a, i); } else { Decided(a, b, i); }
          return comparisonResult;
        }
      }
    }
    assert Same(a, b);
    r := 0;
  }

  /** One deciding position rules out every other outcome. */
  lemma Decided(a: Version, b: Version, i: nat)
    requires LessAt(a, b, i)
    ensures Less(a, b) && !Less(b, a) && !Same(a, b)
  {
    if j: nat :| LessAt(b, a, j) {
      assert false;
    }
  }

  lemma {:induction false} FirstDifference(a: Version, b: Version, i: nat) returns (d: nat)
    requires At(a, i) != At(b, i)
    ensures LessAt(a, b, d) || LessAt(b, a, d)
  {
    if j :| 0 <= j < i && At(a, j) != At(b, j) {
      d := FirstDifference(a, b, j);
    } else {
      d := i;
    }
  }

  lemma LessTransitive(a: Version, b: Version, c: Version)
    requires Less(a, b) && Less(b, c)
    ensures Less(a, c)
  {
    var i: nat :| LessAt(a, b, i);
    var j: nat :| LessAt(b, c, j);
    assert LessAt(a, c, if i < j then i else j);
  }

  /** The comparison is a total preorder: exactly one outcome, and each is transitive. */
  lemma TotalPreorder(a: Version, b: Version, c: Version)
    ensures Less(a, b) || Less(b, a) || Same(a, b)
    ensures !(Less(a, b) && Less(b, a)) && !(Less(a, b) && Same(a, b))
    ensures !Less(b, a) && !Less(c, b) ==> !Less(c, a)
  {
    Trichotomy(a, b);
    Trichotomy(b, c);
    if Less(c, a) && !Less(b, a) && !Less(c, b) {
      if Less(a, b) {
        LessTransitive(c, a, b);
      } else {
        var i: nat :| LessAt(c, a, i);
        assert forall j: nat :: At(a, j) == At(b, j);
        assert LessAt(c, b, i);
      }
    }
  }

  lemma Trichotomy(a: Version, b: Version)
    ensures Less(a, b) || Less(b, a) || Same(a, b)
    ensures !(Less(a, b) && Less(b, a)) && !(Less(a, b) && Same(a, b))
  {
    if i: nat :| At(a, i) != At(b, i) {
      var d := FirstDifference(a, b, i);
      if LessAt(a, b, d) { Decided(a, b, d); } else { Decided(b, a, d); }
    }
  }

  function Trimmed(v: Version): Version {
    if v != [] && v[|v| - 1] == 0 then Trimmed(v[..|v| - 1]) else v
  }

  lemma {:induction false} TrimmedSame(v: Version)
    ensures Same(v, Trimmed(v))
    ensures Trimmed(v) == [] || Trimmed(v)[|Trimmed(v)| - 1] != 0
  {
    if v != [] && v[|v| - 1] == 0 {
      var init := v[..|v| - 1];
      TrimmedSame(init);
      forall i: nat ensures At(v, i) == At(Trimmed(v), i) {
        assert At(v, i) == At(init, i);
      }
    }
  }

  lemma LongerDiffers(s: Version, t: Version)
    requires |s| > |t| && s[|s| - 1] != 0
    ensures !Same(s, t) && !Same(t, s)
  {
    assert At(s, |s| - 1) != At(t, |s| - 1);
  }

  /** Versions compare as equal exactly when they agree after dropping trailing zeros. */
  lemma SameIffTrimmedEqual(a: Version, b: Version)
    ensures Same(a, b) <==> Trimmed(a) == Trimmed(b)
  {
    var s, t := Trimmed(a), Trimmed(b);
    TrimmedSame(a);
    TrimmedSame(b);
    if Same(a, b) {
      assert forall i: nat :: At(s, i) == At(a, i) == At(b, i) == At(t, i);
      if |s| > |t| { LongerDiffers(s, t); }
      if |t| > |s| { LongerDiffers(t, s); }
      assert forall i :: 0 <= i < |s| ==> s[i] == At(s, i) == At(t, i) == t[i];
    } else {
      var i: nat :| At(a, i) != At(b, i);
      assert At(s, i) == At(a, i) && At(t, i) == At(b, i);
    }
  }

  /** The version lies in the closed interval, which has no upper end when `high` is missing. */
  method IsVersionBetween(version: Version, low: Version, high: Option<Version>) returns (b: bool)
    ensures b <==> !Less(version, low) && (high.Some? ==> !Less(high.value, version))
  {
    if high.Some? {
      var l := CompareNumbers(low, version);
      var h := CompareNumbers(high.value, version);
      Trichotomy(low, version);
      Trichotomy(high.value, version);
      Trichotomy(version, low);
      return l <= 0 && h >= 0;
    }
    var l := CompareNumbers(low, version);
    Trichotomy(low, version);
    Trichotomy(version, low);
    b := l <= 0;
  }
}
