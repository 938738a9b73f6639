/**
  Path strings as the modelled code sees them: split into components the way
  `Path::iter` does on Unix (a leading root component "/", then the non-empty
  names between separators), absoluteness, and `Path::join`.
 */
module Paths {
  import Strings

  type Segments = seq<string>

  /** Unix `Path::is_absolute`: the path starts at the root. */
  predicate IsAbsolute(s: string) {
    |s| > 0 && s[0] == '/'
  }

  predicate EndsWithSlash(s: string) {
    |s| > 0 && s[|s| - 1] == '/'
  }

  /** A piece of a path: non-empty and free of separators. */
  predicate IsName(s: string) {
    s != "" && '/' !in s
  }

  function Flush(cur: string): seq<string> {
    if cur == "" then [] else [cur]
  }

  /**
    The names of `s`, continuing a name `cur` already begun: maximal runs of
    non-separator characters, so repeated and trailing separators produce no
    empty name.
   */
  function Names(s: string, cur: string): (r: seq<string>)
    requires '/' !in cur
    ensures forall i :: 0 <= i < |r| ==> IsName(r[i])
    decreases |s|
  {
    if |s| == 0 then Flush(cur)
    else if s[0] == '/' then Flush(cur) + Names(s[1..], "")
    else Names(s[1..], cur + [s[0]])
  }

  /** The components of a path: the root "/" when the path is absolute, then its names. */
  function Components(s: string): (r: Segments)
    ensures |r| > 0 && r[0] == "/" <==> IsAbsolute(s)
    ensures forall i :: 0 <= i < |r| ==> r[i] != ""
    ensures forall i :: 0 < i < |r| ==> IsName(r[i])
  {
    (if IsAbsolute(s) then ["/"] else []) + Names(s, "")
  }

  /**
    `PathBuf::push` / `Path::join` on Unix: an absolute `rel` replaces the base;
    otherwise a separator is inserted unless the base is empty or already ends with one.
   */
  function Join(base: string, rel: string): (r: string)
    ensures IsAbsolute(rel) ==> r == rel
    ensures !IsAbsolute(rel) ==> |base| + |rel| <= |r| <= |base| + |rel| + 1
    ensures !IsAbsolute(rel) ==> r[..|base|] == base && r[|r| - |rel|..] == rel
    ensures !IsAbsolute(rel) && base != "" ==> EndsWithSlash(r[..|r| - |rel|])
    ensures !IsAbsolute(rel) && (base == "" || EndsWithSlash(base)) ==> r == base + rel
  {
    if IsAbsolute(rel) then rel
    else if base != "" && !EndsWithSlash(base) then base + "/" + rel
    else base + rel
  }

  lemma {:induction false} NamesIgnoreTrailingSlash(s: string, cur: string)
    requires '/' !in cur
    ensures Names(s + "/", cur) == Names(s, cur)
    decreases |s|
  {
    if |s| == 0 {
      assert s + "/" == "/";
      assert Names("/"[1..], "") == [];
    } else {
      assert (s + "/")[0] == s[0];
      assert (s + "/")[1..] == s[1..] + "/";
      if s[0] == '/' {
        NamesIgnoreTrailingSlash(s[1..], "");
      } else {
        assert '/' !in cur + [s[0]];
        NamesIgnoreTrailingSlash(s[1..], cur + [s[0]]);
      }
    }
  }

  /** A trailing separator does not change the components of a non-empty path. */
  lemma TrailingSlashIrrelevant(s: string)
    requires s != ""
    ensures Components(s + "/") == Components(s)
  {
    assert IsAbsolute(s + "/") == IsAbsolute(s);
    NamesIgnoreTrailingSlash(s, "");
  }

  /** Splitting a name free of separators, continuing `cur`, yields the one name they form. */
  lemma {:induction false} NamesOfName(x: string, cur: string)
    requires '/' !in cur && '/' !in x
    ensures Names(x, cur) == Flush(cur + x)
    decreases |x|
  {
    if |x| == 0 {
      assert cur + x == cur;
    } else {
      assert '/' !in cur + [x[0]];
      NamesOfName(x[1..], cur + [x[0]]);
      assert cur + [x[0]] + x[1..] == cur + x;
    }
  }

  /** A separator splits the names: those before it, then those after it. */
  lemma {:induction false} NamesAcrossSeparator(a: string, b: string, cur: string)
    requires '/' !in cur
    ensures Names(a + "/" + b, cur) == Names(a, cur) + Names(b, "")
    decreases |a|
  {
    var s := a + "/" + b;
    if |a| == 0 {
      assert s == "/" + b && s[1..] == b;
    } else {
      assert s[0] == a[0] && s[1..] == a[1..] + "/" + b;
      if a[0] == '/' {
        NamesAcrossSeparator(a[1..], b, "");
      } else {
        assert '/' !in cur + [a[0]];
        NamesAcrossSeparator(a[1..], b, cur + [a[0]]);
      }
    }
  }

  lemma {:induction false} NamesOfJoined(names: seq<string>)
    requires names != []
    requires forall i :: 0 <= i < |names| ==> IsName(names[i])
    ensures Names(Strings.JoinWith(names, "/"), "") == names
    decreases |names|
  {
    var last := names[|names| - 1];
    NamesOfName(last, "");
    assert "" + last == last;
    if |names| > 1 {
      var pre := names[..|names| - 1];
      NamesOfJoined(pre);
      NamesAcrossSeparator(Strings.JoinWith(pre, "/"), last, "");
      assert pre + [last] == names;
    }
  }

  /**
    The components of `/` followed by names joined with separators are the
    root and exactly those names, in order.
   */
  lemma ComponentsOfNames(names: seq<string>)
    requires forall i :: 0 <= i < |names| ==> IsName(names[i])
    ensures Components("/" + Strings.JoinWith(names, "/")) == ["/"] + names
  {
    var joined := Strings.JoinWith(names, "/");
    var s := "/" + joined;
    assert s[0] == '/' && s[1..] == joined;
    assert IsAbsolute(s);
    assert Names(s, "") == Names(joined, "");
    if names != [] {
      NamesOfJoined(names);
    } else {
      assert joined == "";
    }
    assert Components(s) == ["/"] + Names(joined, "");
  }
}
