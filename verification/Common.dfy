/** Types and sequence facts shared by the models. */
module Common {

  datatype Option<+T> = None | Some(value: T)

  /** One octet. */
  type byte = b: int | 0 <= b < 256

  /** The pieces of `parts` joined in order. */
  function Flatten<T>(parts: seq<seq<T>>): seq<T> {
    if parts == [] then [] else parts[0] + Flatten(parts[1..])
  }

  lemma {:induction false} FlattenConcat<T>(a: seq<seq<T>>, b: seq<seq<T>>)
    ensures Flatten(a + b) == Flatten(a) + Flatten(b)
  {
    if a == [] {
      assert a + b == b;
    } else {
      FlattenConcat(a[1..], b);
      assert (a + b)[0] == a[0] && (a + b)[1..] == a[1..] + b;
      ConcatAssociates(a[0], Flatten(a[1..]), Flatten(b));
    }
  }

  lemma ConcatAssociates<T>(a: seq<T>, b: seq<T>, c: seq<T>)
    ensures a + (b + c) == a + b + c
  {
  }

  /** Python's order on strings, by code points. */
  predicate Before(a: string, b: string) {
    if b == "" then false
    else if a == "" then true
    else if a[0] == b[0] then Before(a[1..], b[1..])
    else a[0] < b[0]
  }

  /** The texts agree up to some place, at which `a` ends or has the smaller character. */
  lemma {:induction false} BeforeIff(a: string, b: string)
    ensures Before(a, b) <==>
            exists n :: 0 <= n <= |a| && n < |b| && a[..n] == b[..n] && (n < |a| ==> a[n] < b[n])
  {
    if a == "" {
      if b != "" { assert a[..0] == b[..0]; }
    } else if b != "" {
      BeforeIff(a[1..], b[1..]);
      if Before(a, b) {
        if a[0] == b[0] {
          var m :| 0 <= m <= |a[1..]| && m < |b[1..]| && a[1..][..m] == b[1..][..m]
                   && (m < |a[1..]| ==> a[1..][m] < b[1..][m]);
          assert a[..m + 1] == [a[0]] + a[1..][..m] && b[..m + 1] == [b[0]] + b[1..][..m];
        } else {
          assert a[..0] == b[..0];
        }
      }
      if n :| 0 <= n <= |a| && n < |b| && a[..n] == b[..n] && (n < |a| ==> a[n] < b[n]) {
        if n > 0 {
          assert a[0] == a[..n][0] == b[..n][0] == b[0];
          assert a[1..][..n - 1] == a[..n][1..] && b[1..][..n - 1] == b[..n][1..];
          assert n < |a| ==> a[n] == a[1..][n - 1];
          assert b[n] == b[1..][n - 1];
        }
      }
    }
  }

  lemma {:induction false} BeforeTotal(a: string, b: string)
    ensures a == b || Before(a, b) || Before(b, a)
    ensures !(Before(a, b) && Before(b, a)) && !Before(a, a)
  {
    if a != "" && b != "" && a[0] == b[0] {
      BeforeTotal(a[1..], b[1..]);
      assert a == [a[0]] + a[1..] && b == [b[0]] + b[1..];
    }
    BeforeIrreflexive(a);
  }

  lemma {:induction false} BeforeIrreflexive(a: string)
    ensures !Before(a, a)
  {
    if a != "" { BeforeIrreflexive(a[1..]); }
  }

  lemma {:induction false} BeforeTransitive(a: string, b: string, c: string)
    requires Before(a, b) && Before(b, c)
    ensures Before(a, c)
  {
    if a != "" && a[0] == b[0] && b[0] == c[0] { BeforeTransitive(a[1..], b[1..], c[1..]); }
  }

  lemma TextOrderTransitive(a: string, b: string, c: string)
    ensures !Before(b, a) && !Before(c, b) ==> !Before(c, a)
    ensures !Before(b, a) && !Before(c, b) && a == c ==> a == b
  {
    if !Before(b, a) && !Before(c, b) {
      BeforeTotal(a, b);
      BeforeTotal(b, c);
      if Before(c, a) {
        if b != a { BeforeTransitive(c, a, b); }
      }
    }
  }

  // ---------- Trimming ----------

  function TrimStart(s: string, isSpace: char -> bool): string {
    if s != [] && isSpace(s[0]) then TrimStart(s[1..], isSpace) else s
  }

  function TrimEnd(s: string, isSpace: char -> bool): string {
    if s != [] && isSpace(s[|s| - 1]) then TrimEnd(s[..|s| - 1], isSpace) else s
  }

  function Trim(s: string, isSpace: char -> bool): string {
    TrimEnd(TrimStart(s, isSpace), isSpace)
  }

  ghost predicate AllSpace(s: string, isSpace: char -> bool) {
    forall i :: 0 <= i < |s| ==> isSpace(s[i])
  }

  /** Neither end of `t` is white space. */
  ghost predicate SolidEnds(t: string, isSpace: char -> bool) {
    t != "" ==> !isSpace(t[0]) && !isSpace(t[|t| - 1])
  }

  /** `s` is `t` between white space. */
  ghost predicate Padded(s: string, t: string, isSpace: char -> bool) {
    exists a: string, b: string :: s == a + t + b && AllSpace(a, isSpace) && AllSpace(b, isSpace)
  }

  lemma {:induction false} TrimStartDrops(s: string, isSpace: char -> bool) returns (a: string)
    ensures s == a + TrimStart(s, isSpace) && AllSpace(a, isSpace)
    ensures TrimStart(s, isSpace) != "" ==> !isSpace(TrimStart(s, isSpace)[0])
  {
    a := "";
    if s != "" && isSpace(s[0]) {
      var rest := TrimStartDrops(s[1..], isSpace);
      a := [s[0]] + rest;
    }
  }

  lemma {:induction false} TrimEndDrops(s: string, isSpace: char -> bool) returns (b: string)
    ensures s == TrimEnd(s, isSpace) + b && AllSpace(b, isSpace)
    ensures TrimEnd(s, isSpace) != "" ==> !isSpace(TrimEnd(s, isSpace)[|TrimEnd(s, isSpace)| - 1])
  {
    b := "";
    if s != "" && isSpace(s[|s| - 1]) {
      var rest := TrimEndDrops(s[..|s| - 1], isSpace);
      b := rest + [s[|s| - 1]];
    }
  }

  /** A text between white space has only one core with solid ends. */
  lemma CoreUnique(a: string, t: string, b: string, c: string, u: string, d: string, isSpace: char -> bool)
    requires a + t + b == c + u + d
    requires AllSpace(a, isSpace) && AllSpace(b, isSpace) && AllSpace(c, isSpace) && AllSpace(d, isSpace)
    requires SolidEnds(t, isSpace) && SolidEnds(u, isSpace)
    ensures t == u
  {
    var s := a + t + b;
    if t != "" { assert s[|a|] == t[0] && s[|a| + |t| - 1] == t[|t| - 1]; }
    if u != "" { assert s[|c|] == u[0] && s[|c| + |u| - 1] == u[|u| - 1]; }
    assert s == c + u + d;
    if t != "" || u != "" {
      assert forall i :: 0 <= i < |a| ==> s[i] == a[i];
      assert forall i :: 0 <= i < |c| ==> s[i] == c[i];
      assert forall i :: |a| + |t| <= i < |s| ==> s[i] == b[i - |a| - |t|];
      assert forall i :: |c| + |u| <= i < |s| ==> s[i] == d[i - |c| - |u|];
      assert |a| == |c| && |t| == |u|;
      assert t == s[|a|..|a| + |t|] == u;
    }
  }

  /** Trimming takes the white space off both ends, all of it and nothing else. */
  lemma TrimIff(s: string, t: string, isSpace: char -> bool)
    ensures Trim(s, isSpace) == t <==> SolidEnds(t, isSpace) && Padded(s, t, isSpace)
  {
    var a := TrimStartDrops(s, isSpace);
    var mid := TrimStart(s, isSpace);
    var b := TrimEndDrops(mid, isSpace);
    var core := Trim(s, isSpace);
    assert s == a + core + b;
    assert core != "" ==> core[0] == mid[0];
    if SolidEnds(t, isSpace) && Padded(s, t, isSpace) {
      var c, d :| s == c + t + d && AllSpace(c, isSpace) && AllSpace(d, isSpace);
      CoreUnique(a, core, b, c, t, d, isSpace);
    }
  }
}
