/** `_compareVersions(latest, current)`: whether `latest` is a newer
    version than `current`. Each version is trimmed, loses one leading
    `v`, is split at the dots, and the first three pieces are read with
    `parseInt(piece, 10)`; a piece that is missing or does not start with
    a number counts as 0. The three numbers are compared in order. */
module Versions {
  import opened Wrappers
  import opened JsText

  /** `(v || '').toString().trim().replace(/^v/, '')`; a version that is
      null or undefined is None and reads as the empty string. */
  function Normalise(v: Option<string>): string {
    var t := Trim(v.GetOr(""));
    if t != [] && t[0] == 'v' then t[1..] else t
  }

  /** `v.split('.').map(p => parseInt(p, 10))` */
  function Parts(v: Option<string>): (parts: seq<JsNumber>)
    ensures |parts| == |Split(Normalise(v), '.')|
  {
    var pieces := Split(Normalise(v), '.');
    seq(|pieces|, i requires 0 <= i < |pieces| => ParseInt(pieces[i], 10))
  }

  /** `isNaN(parts[i]) ? 0 : parts[i]`: `parts[i]` is undefined past the
      end, and undefined is NaN. */
  function Component(parts: seq<JsNumber>, i: nat): int {
    if i < |parts| && parts[i].Num? then parts[i].value else 0
  }

  /** The three numbers a version is compared by. */
  function Key(v: Option<string>): (k: seq<int>)
    ensures |k| == 3
  {
    var parts := Parts(v);
    [Component(parts, 0), Component(parts, 1), Component(parts, 2)]
  }

  /** Lexicographic order: the first place where the keys differ decides. */
  predicate LexGreater(a: seq<int>, b: seq<int>)
    requires |a| == |b|
  {
    a != [] && (a[0] > b[0] || (a[0] == b[0] && LexGreater(a[1..], b[1..])))
  }

  /** `latest` is strictly newer than `current`. */
  predicate Newer(latest: Option<string>, current: Option<string>) {
    LexGreater(Key(latest), Key(current))
  }

  /** The comparison loop with its early returns. */
  method CompareVersions(latest: Option<string>, current: Option<string>) returns (newer: bool)
    ensures newer == Newer(latest, current)
  {
    var latestParts := Parts(latest);
    var currentParts := Parts(current);
    ghost var a := Key(latest);
    ghost var b := Key(current);
    var i := 0;
    while i < 3
      invariant 0 <= i <= 3
      invariant LexGreater(a, b) == LexGreater(a[i..], b[i..])
    {
      var l := if i < |latestParts| && latestParts[i].Num? then latestParts[i].value else 0;
      var c := if i < |currentParts| && currentParts[i].Num? then currentParts[i].value else 0;
      assert a[i..][0] == l && b[i..][0] == c;
      assert a[i..][1..] == a[i + 1..] && b[i..][1..] == b[i + 1..];
      if l > c {
        return true;
      }
      if l < c {
        return false;
      }
      i := i + 1;
    }
    return false;
  }

  /** LexGreater holds exactly when, at the first place the keys differ,
      the first key is the greater. */
  lemma {:induction false} LexGreaterIff(a: seq<int>, b: seq<int>)
    requires |a| == |b|
    ensures LexGreater(a, b) <==> exists k :: 0 <= k < |a| && a[..k] == b[..k] && a[k] > b[k]
  {
    if a != [] {
      LexGreaterIff(a[1..], b[1..]);
      if LexGreater(a, b) && a[0] <= b[0] {
        var k :| 0 <= k < |a| - 1 && a[1..][..k] == b[1..][..k] && a[1..][k] > b[1..][k];
        assert a[..k + 1] == [a[0]] + a[1..][..k];
        assert b[..k + 1] == [b[0]] + b[1..][..k];
      }
      if !LexGreater(a, b) {
        forall k | 0 <= k < |a| && a[..k] == b[..k] ensures a[k] <= b[k] {
          if k > 0 {
            assert a[0] == a[..k][0] && b[0] == b[..k][0];
            assert a[1..][..k - 1] == a[..k][1..] && b[1..][..k - 1] == b[..k][1..];
            assert a[k] == a[1..][k - 1] && b[k] == b[1..][k - 1];
          }
        }
      }
    }
  }

  lemma {:induction false} LexIrreflexive(a: seq<int>)
    ensures !LexGreater(a, a)
  {
    if a != [] {
      LexIrreflexive(a[1..]);
    }
  }

  lemma {:induction false} LexTransitive(a: seq<int>, b: seq<int>, c: seq<int>)
    requires |a| == |b| == |c|
    requires LexGreater(a, b) && LexGreater(b, c)
    ensures LexGreater(a, c)
  {
    if a[0] == b[0] && b[0] == c[0] {
      LexTransitive(a[1..], b[1..], c[1..]);
    }
  }

  /** Two different keys are ordered one way or the other, never both. */
  lemma {:induction false} LexTotal(a: seq<int>, b: seq<int>)
    requires |a| == |b|
    ensures a != b ==> LexGreater(a, b) || LexGreater(b, a)
    ensures !(LexGreater(a, b) && LexGreater(b, a))
  {
    if a != [] {
      LexTotal(a[1..], b[1..]);
      if a[0] == b[0] && a[1..] == b[1..] {
        assert a == [a[0]] + a[1..] && b == [b[0]] + b[1..];
      }
    }
  }

  /** Newer is a strict order on versions: never newer than itself or
      than an equal key, never both ways, transitive, and any two versions
      with different keys are ordered. */
  lemma NewerIsStrictOrder(x: Option<string>, y: Option<string>, z: Option<string>)
    ensures Key(x) == Key(y) ==> !Newer(x, y)
    ensures !(Newer(x, y) && Newer(y, x))
    ensures Newer(x, y) && Newer(y, z) ==> Newer(x, z)
    ensures Key(x) != Key(y) ==> Newer(x, y) || Newer(y, x)
  {
    LexIrreflexive(Key(x));
    LexTotal(Key(x), Key(y));
    if Newer(x, y) && Newer(y, z) {
      LexTransitive(Key(x), Key(y), Key(z));
    }
  }

  /** One leading `v` makes no difference: `v1.2.3` and `1.2.3` compare
      equal. */
  lemma LeadingVIgnored(s: string)
    requires Trim(s) == s && (s == [] || s[0] != 'v')
    ensures Key(Some(['v'] + s)) == Key(Some(s))
  {
    var t := ['v'] + s;
    assert TrimStart(t) == t;
    if s != [] {
      TrimStrips(s);
      assert TrimStart(s) == s;
      assert t[|t| - 1] == s[|s| - 1];
    }
    assert TrimEnd(t) == t;
    assert Normalise(Some(t)) == s;
  }

  /** A missing version reads as 0.0.0. */
  lemma MissingIsZero()
    ensures Key(None) == [0, 0, 0]
  {
    assert Normalise(None) == "";
    assert Split("", '.') == [""];
    assert ParseInt("", 10) == NaN;
  }
}
