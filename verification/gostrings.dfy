/** The pieces of Go's `strings`, `path` and `path/filepath` packages that the
    naming logic relies on, over strings as sequences of characters. */
module GoStrings {

  /** Result of `strings.Cut` with a one-character separator. */
  datatype CutResult = CutResult(before: string, after: string, found: bool)

  /** `strings.Cut(s, sep)`: split around the FIRST occurrence of `sep`;
      when it does not occur, `before` is all of `s` and `after` is empty. */
  function Cut(s: string, sep: char): (r: CutResult)
    ensures r.found <==> sep in s
    ensures r.found ==> s == r.before + [sep] + r.after && sep !in r.before
    ensures !r.found ==> r.before == s && r.after == ""
  {
    if |s| == 0 then CutResult(s, "", false)
    else if s[0] == sep then CutResult("", s[1..], true)
    else
      var c := Cut(s[1..], sep);
      assert s == [s[0]] + s[1..];
      CutResult([s[0]] + c.before, c.after, c.found)
  }

  /** Cutting at the first `sep` removes exactly one of them, none of them
      from the part before. */
  lemma CutCount(s: string, sep: char)
    ensures Cut(s, sep).found ==> multiset(s)[sep] == multiset(Cut(s, sep).after)[sep] + 1
    ensures !Cut(s, sep).found ==> multiset(s)[sep] == 0
  {
    var r := Cut(s, sep);
    if r.found {
      assert multiset(s) == multiset(r.before) + multiset([sep]) + multiset(r.after);
      assert multiset(r.before)[sep] == 0;
    }
  }

  predicate HasSuffix(s: string, suffix: string) {
    |suffix| <= |s| && s[|s| - |suffix|..] == suffix
  }

  /** `strings.TrimSuffix`: drop `suffix` once when `s` ends with it. */
  function TrimSuffix(s: string, suffix: string): (r: string)
    ensures HasSuffix(s, suffix) ==> r + suffix == s
    ensures !HasSuffix(s, suffix) ==> r == s
  {
    if HasSuffix(s, suffix) then s[..|s| - |suffix|] else s
  }

  /** `strings.ReplaceAll` for one-character old and new strings. */
  function ReplaceAll(s: string, from: char, to: char): (r: string)
    ensures |r| == |s|
    ensures forall i :: 0 <= i < |s| && s[i] != from ==> r[i] == s[i]
    ensures forall i :: 0 <= i < |s| && s[i] == from ==> r[i] == to
  {
    seq(|s|, i requires 0 <= i < |s| => if s[i] == from then to else s[i])
  }

  /** Replacing `from` by `to` and then `to` back by `from` restores any
      string in which `to` did not already occur. */
  lemma ReplaceAllInverse(s: string, from: char, to: char)
    requires to !in s
    ensures ReplaceAll(ReplaceAll(s, from, to), to, from) == s
  {
    var r := ReplaceAll(s, from, to);
    var back := ReplaceAll(r, to, from);
    forall i | 0 <= i < |s|
      ensures back[i] == s[i]
    {
      if s[i] == from {
        assert r[i] == to;
      } else {
        assert s[i] != to;
        assert r[i] == s[i];
      }
    }
  }

  /** Replacing a character that does not occur changes nothing. */
  lemma ReplaceAllAbsent(s: string, from: char, to: char)
    requires from !in s
    ensures ReplaceAll(s, from, to) == s
  {
  }

  /** `ReplaceAll` distributes over concatenation. */
  lemma ReplaceAllConcat(a: string, b: string, from: char, to: char)
    ensures ReplaceAll(a + b, from, to) == ReplaceAll(a, from, to) + ReplaceAll(b, from, to)
  {
    var l := ReplaceAll(a + b, from, to);
    var r := ReplaceAll(a, from, to) + ReplaceAll(b, from, to);
    forall i | 0 <= i < |l|
      ensures l[i] == r[i]
    {
      if i < |a| {
        assert (a + b)[i] == a[i];
      } else {
        assert (a + b)[i] == b[i - |a|];
      }
    }
  }

  /** Drop every trailing '/' (the first loop of `path.Base`). */
  function TrimTrailingSlashes(p: string): (r: string)
    ensures r <= p
    ensures r == [] || r[|r| - 1] != '/'
    ensures forall k :: |r| <= k < |p| ==> p[k] == '/'
  {
    if |p| > 0 && p[|p| - 1] == '/' then TrimTrailingSlashes(p[..|p| - 1]) else p
  }

  /** The text after the last '/', or all of `p` when it has none. */
  function LastElement(p: string): (r: string)
    ensures '/' !in r
    ensures |r| <= |p| && p[|p| - |r|..] == r
    ensures |r| < |p| ==> p[|p| - |r| - 1] == '/'
  {
    if |p| == 0 then p
    else if p[|p| - 1] == '/' then ""
    else
      var r := LastElement(p[..|p| - 1]) + [p[|p| - 1]];
      r
  }

  /** `path.Base`: the last element of a slash-separated path. Trailing
      slashes are ignored, the empty path gives "." and a path of slashes
      only gives "/". (`filepath.Base` coincides with it on '/'-separated
      systems.) */
  function Base(p: string): (r: string)
    ensures r != ""
    ensures '/' in r ==> r == "/"
    ensures p == "" ==> r == "."
    ensures p != "" && (forall k :: 0 <= k < |p| ==> p[k] == '/') ==> r == "/"
    ensures p != "" && '/' !in p ==> r == p
  {
    if p == "" then "."
    else
      var q := TrimTrailingSlashes(p);
      if q == "" then "/" else LastElement(q)
  }

  /** Taking the base of a base changes nothing, so the repeated
      `path.Base` calls on one name agree. */
  lemma BaseIdempotent(p: string)
    ensures Base(Base(p)) == Base(p)
  {
    var b := Base(p);
    if '/' in b {
      assert b == "/";
      assert TrimTrailingSlashes(b) == "";
    }
  }

  /** The last element of `<dir>/<name>` is `name`, when `name` holds no '/'. */
  lemma {:induction false} LastElementAfterSlash(dir: string, name: string)
    requires '/' !in name
    ensures LastElement(dir + "/" + name) == name
    decreases |name|
  {
    var p := dir + "/" + name;
    if name == "" {
      assert p[|p| - 1] == '/';
    } else {
      var init := name[..|name| - 1];
      assert p[..|p| - 1] == dir + "/" + init;
      LastElementAfterSlash(dir, init);
      assert init + [name[|name| - 1]] == name;
    }
  }

  /** The base of `<dir>/<name>` is `name`, for a non-empty `name` without '/'. */
  lemma BaseOfLast(dir: string, name: string)
    requires name != "" && '/' !in name
    ensures Base(dir + "/" + name) == name
  {
    var p := dir + "/" + name;
    assert p[|p| - 1] == name[|name| - 1];
    assert TrimTrailingSlashes(p) == p;
    LastElementAfterSlash(dir, name);
  }

  /** Trailing slashes after `<dir>/<name>` are ignored: the base is still
      `name`. */
  lemma BaseTrailingSlashes(dir: string, name: string, t: string)
    requires name != "" && '/' !in name
    requires forall k :: 0 <= k < |t| ==> t[k] == '/'
    ensures Base(dir + "/" + name + t) == name
  {
    var q := dir + "/" + name;
    assert q[|q| - 1] == name[|name| - 1];
    TrimSlashesOff(q, t);
    BaseOfLast(dir, name);
  }

  /** Trimming the trailing slashes of `q + t`, where `q` does not end in
      '/' and `t` is all slashes, leaves `q`. */
  lemma {:induction false} TrimSlashesOff(q: string, t: string)
    requires q != [] && q[|q| - 1] != '/'
    requires forall k :: 0 <= k < |t| ==> t[k] == '/'
    ensures TrimTrailingSlashes(q + t) == q
    decreases |t|
  {
    if t == [] {
      assert q + t == q;
    } else {
      var p := q + t;
      assert p[|p| - 1] == '/';
      assert p[..|p| - 1] == q + t[..|t| - 1];
      TrimSlashesOff(q, t[..|t| - 1]);
    }
  }

  /** Replacing the two separators of `a sep b sep c`, where only the two
      separators are `from`, swaps exactly those two characters. */
  lemma ReplaceSeparators(a: string, b: string, c: string, from: char, to: char)
    requires from !in a && from !in b && from !in c
    ensures ReplaceAll(a + [from] + b + [from] + c, from, to) == a + [to] + b + [to] + c
  {
    var s := a + [from] + b + [from] + c;
    var t := a + [to] + b + [to] + c;
    var r := ReplaceAll(s, from, to);
    forall k | 0 <= k < |s|
      ensures r[k] == t[k]
    {
      var i, j := |a|, |a| + 1 + |b|;
      if k < i {
        assert s[k] == a[k] && t[k] == a[k];
      } else if k == i {
        assert s[k] == from && t[k] == to;
      } else if k < j {
        assert s[k] == b[k - i - 1] && t[k] == b[k - i - 1];
      } else if k == j {
        assert s[k] == from && t[k] == to;
      } else {
        assert s[k] == c[k - j - 1] && t[k] == c[k - j - 1];
      }
    }
  }

  /** `filepath.Ext`: the suffix of `p` starting at the last '.' of its
      final element, or "" when that element holds no '.'. */
  function Ext(p: string): (r: string)
    ensures |r| <= |p| && p[|p| - |r|..] == r
    ensures r != "" ==> r[0] == '.' && '.' !in r[1..] && '/' !in r
    ensures r == "" ==> '.' !in LastElement(p)
  {
    if |p| == 0 || p[|p| - 1] == '/' then ""
    else if p[|p| - 1] == '.' then [p[|p| - 1]]
    else
      var e := Ext(p[..|p| - 1]);
      if e == "" then ""
      else
        assert e[1..] + [p[|p| - 1]] == (e + [p[|p| - 1]])[1..];
        e + [p[|p| - 1]]
  }

  /** The extension of `stem + e` is exactly `e` when `e` is empty and `stem`
      has no '.', or when `e` is a '.' followed by text free of '.' and '/'. */
  lemma {:induction false} ExtOfSuffix(stem: string, e: string)
    requires e == "" ==> '.' !in stem
    requires e != "" ==> e[0] == '.' && '.' !in e[1..] && '/' !in e
    ensures Ext(stem + e) == e
  {
    if e == "" {
      assert stem + e == stem;
    } else if |e| == 1 {
      var p := stem + e;
      assert p[|p| - 1] == '.';
    } else {
      var e', c := e[..|e| - 1], e[|e| - 1];
      assert e'[1..] == e[1..|e| - 1];
      assert c in e[1..];
      assert e' + [c] == e;
      assert stem + e' + [c] == stem + e by {
        assert stem + e' + [c] == stem + (e' + [c]);
      }
      ExtOfSuffix(stem, e');
      ExtAppend(stem + e', c);
    }
  }

  /** A character other than '.' and '/' extends a non-empty extension. */
  lemma ExtAppend(p: string, c: char)
    requires Ext(p) != "" && c != '.' && c != '/'
    ensures Ext(p + [c]) == Ext(p) + [c]
  {
    assert (p + [c])[..|p|] == p;
  }

  /** `Cut` splits at the separator that follows a separator-free prefix. */
  lemma CutFirst(a: string, b: string, sep: char)
    requires sep !in a
    ensures Cut(a + [sep] + b, sep) == CutResult(a, b, true)
  {
    var s := a + [sep] + b;
    var r := Cut(s, sep);
    assert s[|a|] == sep;
    assert s[|r.before|] == sep;
    assert forall k :: 0 <= k < |a| ==> s[k] == a[k];
    assert forall k :: 0 <= k < |r.before| ==> s[k] == r.before[k];
    assert r.before == s[..|a|] == a;
    assert r.after == s[|a| + 1..] == b;
  }

  /** The first cut of `a + sep + b + sep + rest` drops `a`. */
  lemma CutFirstOfTwo(a: string, b: string, rest: string, sep: char)
    requires sep !in a
    ensures Cut(a + [sep] + b + [sep] + rest, sep) == CutResult(a, b + [sep] + rest, true)
  {
    assert a + [sep] + b + [sep] + rest == a + [sep] + (b + [sep] + rest);
    CutFirst(a, b + [sep] + rest, sep);
  }

  /** Two cuts at `sep` drop exactly two separator-free prefixes. */
  lemma CutTwice(a: string, b: string, rest: string, sep: char)
    requires sep !in a && sep !in b
    ensures Cut(a + [sep] + b + [sep] + rest, sep) == CutResult(a, b + [sep] + rest, true)
    ensures Cut(b + [sep] + rest, sep) == CutResult(b, rest, true)
  {
    CutFirstOfTwo(a, b, rest, sep);
    CutFirst(b, rest, sep);
  }

}
