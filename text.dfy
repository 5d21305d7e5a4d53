/**
 * The string and path helpers of Go's standard library that the flag code relies on:
 * `strings.HasPrefix`, `strings.Contains`, `strings.Split` with a one-character
 * separator, `strings.Join`, and `path.Base` / `path.Join`.
 */
module Text {

  predicate HasPrefix(s: string, prefix: string) {
    |prefix| <= |s| && s[..|prefix|] == prefix
  }

  predicate HasSuffix(s: string, suffix: string) {
    |suffix| <= |s| && s[|s| - |suffix|..] == suffix
  }

  /** `strings.Contains(s, sub)`: `sub` occurs in `s` at some position. */
  predicate Contains(s: string, sub: string)
    decreases |s|
  {
    HasPrefix(s, sub) || (s != [] && Contains(s[1..], sub))
  }

  /** Contains means "occurs at some index", in both directions. */
  lemma {:induction false} ContainsAt(s: string, sub: string)
    ensures Contains(s, sub) <==> exists i :: 0 <= i <= |s| && HasPrefix(s[i..], sub)
    decreases |s|
  {
    if s == [] {
      assert s[0..] == s;
    } else {
      ContainsAt(s[1..], sub);
      assert s[0..] == s;
      if Contains(s, sub) && !HasPrefix(s, sub) {
        var i :| 0 <= i <= |s[1..]| && HasPrefix(s[1..][i..], sub);
        assert s[1..][i..] == s[i + 1..];
      }
      if exists i :: 0 <= i <= |s| && HasPrefix(s[i..], sub) {
        var i :| 0 <= i <= |s| && HasPrefix(s[i..], sub);
        if i > 0 {
          assert s[1..][i - 1..] == s[i..];
        }
      }
    }
  }

  /**
   * The text after the last occurrence of `c`, or all of `s` when `c` does not occur.
   * Its contract determines it uniquely.
   */
  function AfterLast(s: string, c: char): (r: string)
    ensures HasSuffix(s, r) && c !in r
    ensures c in s ==> HasSuffix(s, [c] + r)
    ensures c !in s ==> r == s
    decreases |s|
  {
    if s == [] then []
    else if s[|s| - 1] == c then []
    else
      var init := s[..|s| - 1];
      var r := AfterLast(init, c) + [s[|s| - 1]];
      assert s == init + [s[|s| - 1]];
      assert s[|s| - |r|..] == init[|init| - |r| + 1..] + [s[|s| - 1]];
      assert c in s ==> s[|s| - |r| - 1..] == init[|init| - |r|..] + [s[|s| - 1]];
      r
  }

  /** When `s` ends with `c` followed by a text free of `c`, that text is what follows the last `c`. */
  lemma {:induction false} AfterLastOfSuffix(s: string, c: char, tail: string)
    requires HasSuffix(s, [c] + tail) && c !in tail
    ensures AfterLast(s, c) == tail
    decreases |s|
  {
    if tail != [] {
      var init := s[..|s| - 1];
      assert s[|s| - 1] == tail[|tail| - 1];
      assert init[|init| - |tail|..] == ([c] + tail)[..|tail|];
      assert ([c] + tail)[..|tail|] == [c] + tail[..|tail| - 1];
      AfterLastOfSuffix(init, c, tail[..|tail| - 1]);
      assert tail == tail[..|tail| - 1] + [tail[|tail| - 1]];
    }
  }

  /** `strings.Split(s, string(c))`: the pieces of `s` between occurrences of `c`. */
  function Split(s: string, c: char): (parts: seq<string>)
    ensures |parts| >= 1
    decreases |s|
  {
    if s == [] then [""]
    else
      var rest := Split(s[1..], c);
      if s[0] == c then [""] + rest else [[s[0]] + rest[0]] + rest[1..]
  }

  /** Split yields a single piece exactly when the separator does not occur. */
  lemma {:induction false} SplitSingle(s: string, c: char)
    ensures |Split(s, c)| == 1 <==> c !in s
    ensures c !in s ==> Split(s, c) == [s]
    decreases |s|
  {
    if s != [] {
      SplitSingle(s[1..], c);
      if s[0] != c && c !in s[1..] {
        assert [s[0]] + s[1..] == s;
      }
    }
  }

  function LastPiece(s: string, c: char): string {
    Split(s, c)[|Split(s, c)| - 1]
  }

  /** The last piece of Split is a suffix free of `c`, preceded by `c` when `c` occurs. */
  lemma {:induction false} SplitLastShape(s: string, c: char)
    ensures HasSuffix(s, LastPiece(s, c)) && c !in LastPiece(s, c)
    ensures c in s ==> HasSuffix(s, [c] + LastPiece(s, c))
    decreases |s|
  {
    if s != [] {
      var t := s[1..];
      SplitLastShape(t, c);
      SplitSingle(t, c);
      var rest := Split(t, c);
      var last := LastPiece(t, c);
      if s[0] == c {
        assert Split(s, c) == [""] + rest;
        assert LastPiece(s, c) == last;
      } else if |rest| > 1 {
        assert Split(s, c) == [[s[0]] + rest[0]] + rest[1..];
        assert LastPiece(s, c) == last;
      } else {
        assert Split(s, c) == [[s[0]] + t];
        assert LastPiece(s, c) == s;
      }
      if LastPiece(s, c) == last {
        assert s[|s| - |last|..] == t[|t| - |last|..];
        if c in t {
          assert s[|s| - |last| - 1..] == t[|t| - |last| - 1..];
        }
      }
    }
  }

  /** The last piece of Split is the text after the last separator. */
  lemma SplitLast(s: string, c: char)
    ensures LastPiece(s, c) == AfterLast(s, c)
  {
    SplitLastShape(s, c);
    SplitSingle(s, c);
    if c in s {
      AfterLastOfSuffix(s, c, LastPiece(s, c));
    }
  }

  /** `strings.Join(parts, sep)`. */
  function Join(parts: seq<string>, sep: string): string
    decreases |parts|
  {
    if |parts| == 0 then ""
    else if |parts| == 1 then parts[0]
    else parts[0] + sep + Join(parts[1..], sep)
  }

  lemma {:induction false} SplitAppend(a: string, c: char, b: string)
    requires c !in a
    ensures Split(a + [c] + b, c) == [a] + Split(b, c)
    decreases |a|
  {
    if a == [] {
      assert a + [c] + b == [c] + b;
      assert ([c] + b)[1..] == b;
    } else {
      SplitAppend(a[1..], c, b);
      assert (a + [c] + b)[1..] == a[1..] + [c] + b;
      assert [a[0]] + a[1..] == a;
    }
  }

  /** Splitting undoes joining, when no piece contains the separator. */
  lemma {:induction false} SplitJoin(parts: seq<string>, c: char)
    requires |parts| >= 1
    requires forall i :: 0 <= i < |parts| ==> c !in parts[i]
    ensures Split(Join(parts, [c]), c) == parts
    decreases |parts|
  {
    if |parts| == 1 {
      SplitSingle(parts[0], c);
    } else {
      SplitJoin(parts[1..], c);
      SplitAppend(parts[0], c, Join(parts[1..], [c]));
      assert [parts[0]] + parts[1..] == parts;
    }
  }

  /** The prefix of `s` without its trailing run of `c`. */
  function TrimTrailing(s: string, c: char): (r: string)
    ensures HasPrefix(s, r)
    ensures r == [] || r[|r| - 1] != c
    ensures forall i :: |r| <= i < |s| ==> s[i] == c
    decreases |s|
  {
    if s != [] && s[|s| - 1] == c then TrimTrailing(s[..|s| - 1], c) else s
  }

  /**
   * `path.Base`: the last element of a slash-separated path, with trailing
   * slashes removed; "." for the empty path and "/" for a path of slashes only.
   */
  function Base(path: string): (r: string)
    ensures r != []
  {
    if path == [] then "."
    else
      var last := AfterLast(TrimTrailing(path, '/'), '/');
      if last == [] then "/" else last
  }

  /**
   * `path.Join(dir, name)` for a clean directory and a single file name:
   * the two joined by one slash.
   */
  function JoinPath(dir: string, name: string): (r: string)
    ensures HasSuffix(r, name)
    ensures HasPrefix(r, dir)
    ensures dir != [] && !HasSuffix(dir, "/") ==> |r| == |dir| + 1 + |name| && r[|dir|] == '/'
    ensures (dir == [] || HasSuffix(dir, "/")) ==> |r| == |dir| + |name|
  {
    if dir == [] then name
    else if HasSuffix(dir, "/") then dir + name
    else dir + "/" + name
  }

  /** The base name of a file joined onto a directory is the file's own name. */
  lemma BaseOfJoin(dir: string, name: string)
    requires name != [] && '/' !in name
    ensures Base(JoinPath(dir, name)) == name
  {
    var p := JoinPath(dir, name);
    assert p[|p| - 1] == name[|name| - 1];
    assert TrimTrailing(p, '/') == p;
    if dir != [] {
      if HasSuffix(dir, "/") {
        assert p[|p| - |name| - 1..] == dir[|dir| - 1..] + name;
      } else {
        assert p[|p| - |name| - 1..] == "/" + name;
      }
      AfterLastOfSuffix(p, '/', name);
    }
  }
}
