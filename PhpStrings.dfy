/**
  The PHP and Laravel string helpers the directive provider calls, as pure
  functions over `string` (a sequence of characters):
  `str_replace` with an empty replacement, `starts_with`, `ends_with`,
  `trim`, `explode`, `strtolower`, `lcfirst` and the separator-free case of
  `camel_case`.
 */
module PhpStrings {

  // ---------------------------------------------------------------------
  // Prefix, suffix and occurrence tests

  /**
    Laravel's `starts_with($s, $p)` for one non-empty needle: `s` is `p`
    followed by something. (Laravel answers false for an empty needle; every
    needle the provider passes is a non-empty literal.)
   */
  predicate StartsWith(s: string, p: string): (b: bool)
    ensures b <==> |p| <= |s| && s == p + s[|p|..]
  {
    var b := |p| <= |s| && s[..|p|] == p;
    assert b ==> s == p + s[|p|..];
    b
  }

  /** A string whose character at index `k` differs from the needle's does not start with the needle. */
  lemma NotStartsWith(s: string, q: string, k: nat)
    requires k < |q| && k < |s| && s[k] != q[k]
    ensures !StartsWith(s, q)
  {
  }

  /**
    Laravel's `ends_with($s, $p)` for one non-empty needle: `s` is something
    followed by `p`. (Laravel answers false for an empty needle; every needle
    the provider passes is a non-empty literal.)
   */
  predicate EndsWith(s: string, p: string): (b: bool)
    ensures b <==> |p| <= |s| && s == s[..|s| - |p|] + p
  {
    var b := |p| <= |s| && s[|s| - |p|..] == p;
    assert b ==> s == s[..|s| - |p|] + p;
    b
  }

  /** `p` occurs in `s` starting at index `i`. */
  predicate OccursAt(s: string, p: string, i: int) {
    0 <= i && i + |p| <= |s| && s[i..i + |p|] == p
  }

  /** `p` occurs somewhere in `s`. */
  predicate Occurs(s: string, p: string) {
    exists i :: 0 <= i <= |s| && OccursAt(s, p, i)
  }

  // ---------------------------------------------------------------------
  // str_replace($p, '', $s)

  /**
    `str_replace($p, '', $s)`: one left-to-right pass that deletes every
    non-overlapping occurrence of `p`. An empty search string leaves the
    subject unchanged. Only characters of `s` survive, and never more of
    them than `s` has.
   */
  function RemoveAll(s: string, p: string): (r: string)
    ensures |r| <= |s|
    decreases |s|
  {
    if p == [] || |s| < |p| then s
    else if s[..|p|] == p then
      assert s == s[..|p|] + s[|p|..];
      RemoveAll(s[|p|..], p)
    else
      assert s == [s[0]] + s[1..];
      [s[0]] + RemoveAll(s[1..], p)
  }

  /** Only characters of the subject survive a deletion. */
  lemma {:induction false} RemoveAllChars(s: string, p: string)
    ensures forall c :: c in RemoveAll(s, p) ==> c in s
    decreases |s|
  {
    if p != [] && |s| >= |p| {
      if s[..|p|] == p {
        RemoveAllChars(s[|p|..], p);
      } else {
        RemoveAllChars(s[1..], p);
      }
    }
  }

  /** An occurrence in the tail of `s` is an occurrence in `s`, one place later. */
  lemma OccursInTail(s: string, p: string, i: int)
    requires |s| > 0 && OccursAt(s[1..], p, i)
    ensures OccursAt(s, p, i + 1)
  {
  }

  /** Deletion leaves the subject unchanged exactly when there is nothing to delete. */
  lemma {:induction false} RemoveAllUnchanged(s: string, p: string)
    requires p != []
    ensures RemoveAll(s, p) == s <==> !Occurs(s, p)
    decreases |s|
  {
    if Occurs(s, p) {
      RemoveAllShrinks(s, p);
    } else if |s| >= |p| {
      assert s[..|p|] != p by { assert !OccursAt(s, p, 0); }
      if Occurs(s[1..], p) {
        var i :| 0 <= i <= |s| - 1 && OccursAt(s[1..], p, i);
        OccursInTail(s, p, i);
        assert false;
      }
      RemoveAllUnchanged(s[1..], p);
      assert [s[0]] + s[1..] == s;
    }
  }

  /** Every occurrence found is deleted, so the result is strictly shorter. */
  lemma {:induction false} RemoveAllShrinks(s: string, p: string)
    requires p != [] && Occurs(s, p)
    ensures |RemoveAll(s, p)| < |s|
    decreases |s|
  {
    var i :| 0 <= i <= |s| && OccursAt(s, p, i);
    if s[..|p|] != p {
      assert i != 0;
      assert OccursAt(s[1..], p, i - 1) by {
        assert s[1..][i - 1..i - 1 + |p|] == s[i..i + |p|];
      }
      RemoveAllShrinks(s[1..], p);
    }
  }

  /** A one-character pattern occurs exactly when the character does. */
  lemma OccursChar(s: string, c: char)
    ensures Occurs(s, [c]) <==> c in s
  {
    if Occurs(s, [c]) {
      var i :| 0 <= i <= |s| && OccursAt(s, [c], i);
      assert s[i] == s[i..i + 1][0];
    }
    if c in s {
      var i :| 0 <= i < |s| && s[i] == c;
      assert OccursAt(s, [c], i);
    }
  }

  /** A leading occurrence of `p` is deleted and the scan resumes after it. */
  lemma RemoveAllLeading(p: string, rest: string)
    requires p != []
    ensures RemoveAll(p + rest, p) == RemoveAll(rest, p)
  {
  }

  /** A string without an occurrence has none in its tail either. */
  lemma NoOccursInTail(t: string, p: string)
    requires |t| > 0 && !Occurs(t, p)
    ensures !Occurs(t[1..], p)
  {
    if Occurs(t[1..], p) {
      var i :| 0 <= i <= |t[1..]| && OccursAt(t[1..], p, i);
      OccursInTail(t, p, i);
    }
  }

  /** Where no occurrence starts, the first character is kept and the scan moves on by one. */
  lemma RemoveAllSkip(s: string, p: string)
    requires p != [] && |p| <= |s| && !OccursAt(s, p, 0)
    ensures RemoveAll(s, p) == [s[0]] + RemoveAll(s[1..], p)
  {
  }

  /** The step of `RemoveAllFirst`: with text before the occurrence, none starts at index 0, nor in the shorter prefix. */
  lemma BeforeFirst(a: string, p: string, b: string)
    requires a != [] && p != [] && !Occurs(a + p[..|p| - 1], p)
    ensures !OccursAt(a + p + b, p, 0)
    ensures !Occurs(a[1..] + p[..|p| - 1], p)
  {
    var q := p[..|p| - 1];
    var t := a + q;
    assert !OccursAt(t, p, 0);
    assert (a + p + b)[..|p|] == t[..|p|];
    assert t == [a[0]] + (a[1..] + q) by {
      assert a == [a[0]] + a[1..];
    }
    assert t[1..] == a[1..] + q;
    NoOccursInTail(t, p);
  }

  /**
    The text before the first occurrence is kept as it is, the occurrence is
    deleted, and the scan goes on after it. With `RemoveAllUnchanged` this
    fixes the result for every subject.
   */
  lemma {:induction false} RemoveAllFirst(a: string, p: string, b: string)
    requires p != [] && !Occurs(a + p[..|p| - 1], p)
    ensures RemoveAll(a + p + b, p) == a + RemoveAll(b, p)
    decreases |a|
  {
    if a == [] {
      assert a + p + b == p + b;
      RemoveAllLeading(p, b);
    } else {
      var s := a + p + b;
      BeforeFirst(a, p, b);
      RemoveAllSkip(s, p);
      assert s[1..] == a[1..] + p + b;
      RemoveAllFirst(a[1..], p, b);
      var rb := RemoveAll(b, p);
      assert RemoveAll(s, p) == [a[0]] + (a[1..] + rb);
      assert [a[0]] + (a[1..] + rb) == a + rb;
    }
  }



  /**
    The single-pass character is visible: deleting `extend` from
    `exextendtend` leaves `extend`, which `str_replace` does not revisit.
   */
  lemma RemoveAllSinglePass()
    ensures RemoveAll("exextendtend", "extend") == "extend"
  {
    var s := "exextendtend";
    assert s[..6][2] != "extend"[2];
    assert s[1..][..6][1] != "extend"[1];
    assert s[1..][1..] == "extendtend";
    RemoveAllLeading("extend", "tend");
    assert "extend" + "tend" == "extendtend";
    assert RemoveAll("tend", "extend") == "tend";
    assert [s[0]] + ([s[1]] + "tend") == "extend";
  }

  /** Deleting a single character `c`: `c` is gone and every other character keeps its count. */
  lemma {:induction false} RemoveCharFacts(s: string, c: char)
    ensures c !in RemoveAll(s, [c])
    ensures forall d :: d != c ==> multiset(RemoveAll(s, [c]))[d] == multiset(s)[d]
    ensures |RemoveAll(s, [c])| == |s| - multiset(s)[c]
    decreases |s|
  {
    if s != [] {
      RemoveCharFacts(s[1..], c);
      assert s == [s[0]] + s[1..];
      assert multiset(s) == multiset([s[0]]) + multiset(s[1..]);
      if s[0] != c {
        assert s[..1] != [c];
        var r := [s[0]] + RemoveAll(s[1..], [c]);
        assert multiset(r) == multiset([s[0]]) + multiset(RemoveAll(s[1..], [c]));
      } else {
        assert s[..1] == [c];
      }
    }
  }

  /** Deleting a single character distributes over concatenation, so the survivors keep their order. */
  lemma {:induction false} RemoveCharAppend(a: string, b: string, c: char)
    ensures RemoveAll(a + b, [c]) == RemoveAll(a, [c]) + RemoveAll(b, [c])
    decreases |a|
  {
    if a == [] {
      assert a + b == b;
    } else {
      RemoveCharAppend(a[1..], b, c);
      assert (a + b)[1..] == a[1..] + b;
      assert (a + b)[..1] == a[..1];
      if a[..1] == [c] {
        assert a[1..] == a[|[c]|..];
      }
    }
  }

  // ---------------------------------------------------------------------
  // trim($s) and explode(',', $s)

  /** The characters PHP's `trim` removes by default: space, tab, LF, CR, NUL and vertical tab. */
  predicate IsTrimSpace(c: char) {
    c == ' ' || c == '\t' || c == '\n' || c == '\r' || c == '\0' || c == '\U{0B}'
  }

  /** `ltrim($s)`: the longest suffix of `s` that does not start with a trim character. */
  function TrimLeft(s: string): (r: string)
    ensures |r| <= |s| && r == s[|s| - |r|..]
    ensures forall i :: 0 <= i < |s| - |r| ==> IsTrimSpace(s[i])
    ensures r == [] || !IsTrimSpace(r[0])
  {
    if |s| > 0 && IsTrimSpace(s[0]) then
      var r := TrimLeft(s[1..]);
      assert s[1..][|s| - 1 - |r|..] == s[|s| - |r|..];
      assert forall i :: 1 <= i < |s| - |r| ==> s[i] == s[1..][i - 1];
      r
    else s
  }

  /** `rtrim($s)`: the longest prefix of `s` that does not end with a trim character. */
  function TrimRight(s: string): (r: string)
    ensures |r| <= |s| && r == s[..|r|]
    ensures forall i :: |r| <= i < |s| ==> IsTrimSpace(s[i])
    ensures r == [] || !IsTrimSpace(r[|r| - 1])
  {
    if |s| > 0 && IsTrimSpace(s[|s| - 1]) then TrimRight(s[..|s| - 1]) else s
  }

  /** `trim($s)`: neither end of the result is a trim character. */
  function Trim(s: string): (r: string)
    ensures |r| <= |s|
    ensures r == [] || (!IsTrimSpace(r[0]) && !IsTrimSpace(r[|r| - 1]))
    ensures exists i, j :: 0 <= i <= j <= |s| && r == s[i..j] && AllTrimSpace(s[..i]) && AllTrimSpace(s[j..])
  {
    var t := TrimLeft(s);
    var r := TrimRight(t);
    var i := |s| - |t|;
    assert r == s[i..i + |r|] && AllTrimSpace(s[..i]) && AllTrimSpace(s[i + |r|..]);
    r
  }

  /** All characters of `s` are trim characters. */
  predicate AllTrimSpace(s: string) {
    forall i :: 0 <= i < |s| ==> IsTrimSpace(s[i])
  }

  /** `m` has no trim character at either end. */
  predicate IsTrimmed(m: string) {
    m == [] || (!IsTrimSpace(m[0]) && !IsTrimSpace(m[|m| - 1]))
  }

  /** `trim` removes exactly the surrounding runs of trim characters and keeps the inside. */
  lemma TrimExact(a: string, m: string, b: string)
    requires AllTrimSpace(a) && AllTrimSpace(b) && IsTrimmed(m)
    ensures Trim(a + m + b) == m
  {
    if m == [] {
      assert a + m + b == (a + b) + [];
      TrimLeftPrefix(a + b, []);
    } else {
      assert a + m + b == a + (m + b);
      TrimLeftPrefix(a, m + b);
      TrimRightSuffix(m, b);
    }
  }

  /** `ltrim` removes a leading run of trim characters and stops at the first other character. */
  lemma {:induction false} TrimLeftPrefix(a: string, t: string)
    requires AllTrimSpace(a) && (t == [] || !IsTrimSpace(t[0]))
    ensures TrimLeft(a + t) == t
    decreases |a|
  {
    if a == [] {
      assert a + t == t;
    } else {
      assert (a + t)[1..] == a[1..] + t;
      TrimLeftPrefix(a[1..], t);
    }
  }

  lemma {:induction false} TrimRightSuffix(m: string, b: string)
    requires AllTrimSpace(b) && m != [] && !IsTrimSpace(m[|m| - 1])
    ensures TrimRight(m + b) == m
    decreases |b|
  {
    if b == [] {
      assert m + b == m;
    } else {
      assert (m + b)[..|m + b| - 1] == m + b[..|b| - 1];
      TrimRightSuffix(m, b[..|b| - 1]);
    }
  }

  /** `implode` with a one-character glue; the inverse of `Explode`. */
  function Join(parts: seq<string>, d: char): string {
    if parts == [] then []
    else if |parts| == 1 then parts[0]
    else parts[0] + [d] + Join(parts[1..], d)
  }

  /** `explode($d, $s)` for a one-character delimiter: the pieces between delimiters. */
  function Explode(s: string, d: char): (parts: seq<string>)
    ensures |parts| >= 1
  {
    if s == [] then [[]]
    else
      var rest := Explode(s[1..], d);
      if s[0] == d then [[]] + rest
      else [[s[0]] + rest[0]] + rest[1..]
  }

  /**
    There is one more piece than there are delimiters (so `""` gives one
    empty piece), no piece holds the delimiter, and gluing the pieces back
    together gives the subject.
   */
  lemma ExplodeFacts(s: string, d: char)
    ensures |Explode(s, d)| == multiset(s)[d] + 1
    ensures forall i :: 0 <= i < |Explode(s, d)| ==> d !in Explode(s, d)[i]
    ensures Join(Explode(s, d), d) == s
  {
    ExplodeCount(s, d);
    ExplodeNoDelimiter(s, d);
    ExplodeJoinBack(s, d);
  }

  lemma {:induction false} ExplodeCount(s: string, d: char)
    ensures |Explode(s, d)| == multiset(s)[d] + 1
    decreases |s|
  {
    if s != [] {
      ExplodeCount(s[1..], d);
      assert s == [s[0]] + s[1..];
      assert multiset(s) == multiset([s[0]]) + multiset(s[1..]);
    }
  }

  lemma {:induction false} ExplodeNoDelimiter(s: string, d: char)
    ensures forall i :: 0 <= i < |Explode(s, d)| ==> d !in Explode(s, d)[i]
    decreases |s|
  {
    if s != [] {
      ExplodeNoDelimiter(s[1..], d);
    }
  }

  lemma {:induction false} ExplodeJoinBack(s: string, d: char)
    ensures Join(Explode(s, d), d) == s
    decreases |s|
  {
    if s != [] {
      var rest := Explode(s[1..], d);
      ExplodeJoinBack(s[1..], d);
      if s[0] == d {
        JoinCons([], rest, d);
      } else {
        var x := [s[0]] + rest[0];
        JoinCons(x, rest[1..], d);
        JoinCons(rest[0], rest[1..], d);
        assert rest == [rest[0]] + rest[1..];
      }
      assert s == [s[0]] + s[1..];
    }
  }

  /** Joining a first piece onto the rest. */
  lemma JoinCons(x: string, ps: seq<string>, d: char)
    ensures Join([x] + ps, d) == x + (if ps == [] then [] else [d] + Join(ps, d))
  {
  }

  /** Pieces without the delimiter survive a join followed by an explode. */
  lemma {:induction false} ExplodeJoin(parts: seq<string>, d: char)
    requires |parts| >= 1
    requires forall i :: 0 <= i < |parts| ==> d !in parts[i]
    ensures Explode(Join(parts, d), d) == parts
    decreases |parts|
  {
    if |parts| == 1 {
      ExplodePlain(parts[0], d);
    } else {
      ExplodeJoin(parts[1..], d);
      ExplodeHead(parts[0], Join(parts[1..], d), d);
      assert [parts[0]] + parts[1..] == parts;
    }
  }

  /** A string without the delimiter is one piece. */
  lemma {:induction false} ExplodePlain(s: string, d: char)
    requires d !in s
    ensures Explode(s, d) == [s]
    decreases |s|
  {
    if s != [] {
      ExplodePlain(s[1..], d);
      assert [s[0]] + s[1..] == s;
    }
  }

  /** A delimiter-free head followed by a delimiter becomes the first piece. */
  lemma {:induction false} ExplodeHead(x: string, t: string, d: char)
    requires d !in x
    ensures Explode(x + [d] + t, d) == [x] + Explode(t, d)
    decreases |x|
  {
    if x == [] {
      assert x + [d] + t == [d] + t;
      assert ([d] + t)[1..] == t;
    } else {
      var s := x + [d] + t;
      assert s[0] == x[0] && s[0] != d;
      assert s[1..] == x[1..] + [d] + t;
      ExplodeHead(x[1..], t, d);
      var rest := Explode(s[1..], d);
      assert rest[0] == x[1..] && rest[1..] == Explode(t, d);
      assert [x[0]] + x[1..] == x;
    }
  }

  // ---------------------------------------------------------------------
  // strtolower, lcfirst, camel_case

  function LowerChar(c: char): char {
    if 'A' <= c <= 'Z' then (c as int - 'A' as int + 'a' as int) as char else c
  }

  predicate IsUpper(c: char) {
    'A' <= c <= 'Z'
  }

  /** `strtolower($s)` on ASCII letters: same length, each character lowered in place. */
  function Lower(s: string): (r: string)
    ensures |r| == |s|
    ensures forall i :: 0 <= i < |s| ==> r[i] == LowerChar(s[i])
  {
    if s == [] then [] else [LowerChar(s[0])] + Lower(s[1..])
  }

  /** `strtolower` leaves no upper-case letter and is idempotent. */
  lemma LowerIsLower(s: string)
    ensures forall i :: 0 <= i < |s| ==> !IsUpper(Lower(s)[i])
    ensures Lower(Lower(s)) == Lower(s)
  {
  }

  /** `lcfirst($s)`: the first character lowered, the rest untouched. */
  function LcFirst(s: string): (r: string)
    ensures |r| == |s|
    ensures s != [] ==> r[0] == LowerChar(s[0]) && r[1..] == s[1..]
  {
    if s == [] then s else [LowerChar(s[0])] + s[1..]
  }

  /** Characters at which Laravel's `camel_case` splits words or that `ucwords` treats as word breaks. */
  predicate IsSeparator(c: char) {
    c == '-' || c == '_' || c == ' ' || c == '\t' || c == '\n' || c == '\r' || c == '\U{0B}' || c == '\U{0C}'
  }

  predicate NoSeparators(s: string) {
    forall i :: 0 <= i < |s| ==> !IsSeparator(s[i])
  }

  /**
    Laravel's `camel_case` on a name without word separators:
    `lcfirst(ucwords($s))`, where `ucwords` raises only the first character.
   */
  function CamelCase(s: string): (r: string)
    requires NoSeparators(s)
    ensures LcFirst(r) == r
    ensures |r| == |s| && (s != [] ==> r[0] == LowerChar(s[0]) && r[1..] == s[1..])
  {
    LcFirst(s)
  }
}
