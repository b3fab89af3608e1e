/** Target artifact names (main.go:17, main.go:119): the base name of a
    file path with every maximal run of characters outside
    `[-.+a-zA-Z0-9]` replaced by one underscore. */
module Naming {

  /** Membership in the class `[-.+a-zA-Z0-9]` of `nameRegex`. */
  predicate IsAllowed(c: char)
  {
    c == '-' || c == '.' || c == '+'
    || ('a' <= c <= 'z') || ('A' <= c <= 'Z') || ('0' <= c <= '9')
  }

  /** Length of the maximal run of disallowed characters at the start of `s`. */
  function DisallowedRun(s: string): (n: nat)
    ensures n <= |s|
    ensures forall i :: 0 <= i < n ==> !IsAllowed(s[i])
    ensures n < |s| ==> IsAllowed(s[n])
  {
    if s == [] || IsAllowed(s[0]) then 0 else 1 + DisallowedRun(s[1..])
  }

  /** The shape of every sanitised name: only allowed characters and
      underscores, and never two underscores in a row. */
  predicate IsSanitized(s: string)
  {
    && (forall i :: 0 <= i < |s| ==> IsAllowed(s[i]) || s[i] == '_')
    && (forall i :: 0 < i < |s| ==> !UnderscorePairAt(s, i))
  }

  /** Positions i - 1 and i of `s` both hold an underscore. */
  predicate UnderscorePairAt(s: string, i: int)
    requires 0 < i < |s|
  {
    s[i - 1] == '_' && s[i] == '_'
  }

  /** `nameRegex.ReplaceAllString(name, "_")`: allowed characters are copied,
      each maximal run of other characters becomes a single `_`. */
  function Sanitize(name: string): (r: string)
    ensures IsSanitized(r)
    ensures |r| <= |name|
    ensures r == [] <==> name == []
    ensures r != [] ==> r[0] == (if IsAllowed(name[0]) then name[0] else '_')
    decreases |name|
  {
    if name == [] then []
    else if IsAllowed(name[0]) then
      var rest := Sanitize(name[1..]);
      ConsSanitized(name[0], rest);
      [name[0]] + rest
    else
      var rest := Sanitize(name[DisallowedRun(name)..]);
      ConsSanitized('_', rest);
      "_" + rest
  }

  /** Putting an allowed character, or an underscore that is not followed by
      another, in front of a sanitised name keeps it sanitised; and the
      tail of a sanitised name is sanitised. */
  lemma ConsSanitized(c: char, rest: string)
    ensures IsSanitized([c] + rest) <==>
      (IsAllowed(c) || c == '_') && IsSanitized(rest) && (c == '_' ==> rest == [] || rest[0] != '_')
  {
    var t := [c] + rest;
    if IsSanitized(t) {
      assert IsAllowed(t[0]) || t[0] == '_';
      forall i | 0 < i < |rest|
        ensures !UnderscorePairAt(rest, i)
      {
        assert !UnderscorePairAt(t, i + 1);
      }
      forall i | 0 <= i < |rest|
        ensures IsAllowed(rest[i]) || rest[i] == '_'
      {
        assert rest[i] == t[i + 1];
      }
      if rest != [] {
        assert !UnderscorePairAt(t, 1);
      }
    }
    if (IsAllowed(c) || c == '_') && IsSanitized(rest) && (c == '_' ==> rest == [] || rest[0] != '_') {
      forall i | 0 < i < |t|
        ensures !UnderscorePairAt(t, i)
      {
        if i > 1 {
          assert !UnderscorePairAt(rest, i - 1);
        }
      }
      forall i | 0 <= i < |t|
        ensures IsAllowed(t[i]) || t[i] == '_'
      {
        if i > 0 {
          assert t[i] == rest[i - 1];
        }
      }
    }
  }

  // An independent reading of the same replacement: first turn every
  // disallowed character into `_`, then merge each run of `_` into one.

  function Mask(s: string): (r: string)
    ensures |r| == |s|
  {
    seq(|s|, i requires 0 <= i < |s| => if IsAllowed(s[i]) then s[i] else '_')
  }

  function Squeeze(t: string): string
  {
    if |t| <= 1 then t
    else if t[0] == '_' && t[1] == '_' then Squeeze(t[1..])
    else [t[0]] + Squeeze(t[1..])
  }

  function Underscores(k: nat): (u: string)
    ensures |u| == k && forall i :: 0 <= i < k ==> u[i] == '_'
  {
    seq(k, _ => '_')
  }

  lemma {:induction false} SqueezeRun(k: nat, t: string)
    requires k >= 1
    requires t == [] || t[0] != '_'
    ensures Squeeze(Underscores(k) + t) == "_" + Squeeze(t)
  {
    if k > 1 {
      assert (Underscores(k) + t)[1..] == Underscores(k - 1) + t;
      SqueezeRun(k - 1, t);
    } else if t != [] {
      assert (Underscores(1) + t)[1..] == t;
    }
  }

  /** Sanitising agrees with mask-then-merge on every input, so each
      maximal disallowed run yields exactly one underscore. */
  lemma {:induction false} SanitizeIsSqueezedMask(s: string)
    ensures Sanitize(s) == Squeeze(Mask(s))
    decreases |s|
  {
    if s == [] {
    } else if IsAllowed(s[0]) {
      SanitizeIsSqueezedMask(s[1..]);
      assert Mask(s) == [s[0]] + Mask(s[1..]);
      assert s[0] != '_';
      if s[1..] == [] {
        assert Mask(s) == [s[0]];
      }
    } else {
      var n := DisallowedRun(s);
      SanitizeIsSqueezedMask(s[n..]);
      assert Mask(s) == Underscores(n) + Mask(s[n..]);
      SqueezeRun(n, Mask(s[n..]));
    }
  }

  /** Allowed characters survive, in order, and nothing else does except
      the underscores. */
  function KeepAllowed(s: string): (r: string)
    ensures forall i :: 0 <= i < |r| ==> IsAllowed(r[i])
  {
    if s == [] then []
    else if IsAllowed(s[0]) then [s[0]] + KeepAllowed(s[1..])
    else KeepAllowed(s[1..])
  }

  lemma {:induction false} KeepAllowedSkipsRun(s: string, n: nat)
    requires n <= |s|
    requires forall i :: 0 <= i < n ==> !IsAllowed(s[i])
    ensures KeepAllowed(s) == KeepAllowed(s[n..])
  {
    if n > 0 {
      KeepAllowedSkipsRun(s[1..], n - 1);
      assert s[1..][n - 1..] == s[n..];
    }
  }

  lemma {:induction false} SanitizeKeepsAllowed(s: string)
    ensures KeepAllowed(Sanitize(s)) == KeepAllowed(s)
    decreases |s|
  {
    if s != [] {
      if IsAllowed(s[0]) {
        SanitizeKeepsAllowed(s[1..]);
        assert ([s[0]] + Sanitize(s[1..]))[1..] == Sanitize(s[1..]);
      } else {
        var n := DisallowedRun(s);
        SanitizeKeepsAllowed(s[n..]);
        KeepAllowedSkipsRun(s, n);
        assert ("_" + Sanitize(s[n..]))[1..] == Sanitize(s[n..]);
      }
    }
  }

  /** The names sanitising leaves unchanged are exactly the sanitised-shaped
      ones. */
  lemma {:induction false} SanitizeFixedPoints(t: string)
    ensures Sanitize(t) == t <==> IsSanitized(t)
    decreases |t|
  {
    if IsSanitized(t) && t != [] {
      assert t == [t[0]] + t[1..];
      ConsSanitized(t[0], t[1..]);
      SanitizeFixedPoints(t[1..]);
      if !IsAllowed(t[0]) {
        assert DisallowedRun(t) == 1;
      }
    }
  }

  /** Sanitising twice is sanitising once. */
  lemma {:induction false} SanitizeIdempotent(s: string)
    ensures Sanitize(Sanitize(s)) == Sanitize(s)
  {
    SanitizeFixedPoints(Sanitize(s));
  }

  /** A name made only of allowed characters is left as it is. */
  lemma {:induction false} AllowedNameUnchanged(s: string)
    requires forall i :: 0 <= i < |s| ==> IsAllowed(s[i])
    ensures Sanitize(s) == s
  {
    SanitizeFixedPoints(s);
  }

  /** A leading block of allowed characters is copied unchanged. */
  lemma {:induction false} SanitizeAllowedPrefix(a: string, t: string)
    requires forall i :: 0 <= i < |a| ==> IsAllowed(a[i])
    ensures Sanitize(a + t) == a + Sanitize(t)
    decreases |a|
  {
    if a != [] {
      assert (a + t)[1..] == a[1..] + t;
      SanitizeAllowedPrefix(a[1..], t);
      assert a == [a[0]] + a[1..];
    } else {
      assert a + t == t;
    }
  }

  /** A leading maximal run of disallowed characters becomes one `_`. */
  lemma SanitizeRunPrefix(d: string, t: string)
    requires d != [] && forall i :: 0 <= i < |d| ==> !IsAllowed(d[i])
    requires t == [] || IsAllowed(t[0])
    ensures Sanitize(d + t) == "_" + Sanitize(t)
  {
    RunLengthOf(d, t);
    assert (d + t)[|d|..] == t;
  }

  lemma {:induction false} RunLengthOf(d: string, t: string)
    requires forall i :: 0 <= i < |d| ==> !IsAllowed(d[i])
    requires t == [] || IsAllowed(t[0])
    ensures DisallowedRun(d + t) == |d|
    decreases |d|
  {
    if d != [] {
      assert (d + t)[1..] == d[1..] + t;
      RunLengthOf(d[1..], t);
    } else {
      assert d + t == t;
    }
  }

  /** Example: "report v1.2!.txt" becomes "report_v1.2_.txt"; the space and
      the `!` each become one underscore. The pieces are parameters fixed by
      `requires`, which keeps long string literals out of the solver's
      unfolding of `Sanitize`. */
  lemma SanitizeExample(stem: string, version: string, ext: string)
    requires stem == "report" && version == "v1.2" && ext == ".txt"
    ensures Sanitize(stem + " " + version + "!" + ext) == stem + "_" + version + "_" + ext
  {
    var t1 := "!" + ext;
    var t2 := version + t1;
    var t3 := " " + t2;
    SanitizeAllowedPrefix(ext, []);
    assert ext + [] == ext;
    SanitizeRunPrefix("!", ext);
    SanitizeAllowedPrefix(version, t1);
    SanitizeRunPrefix(" ", t2);
    SanitizeAllowedPrefix(stem, t3);
    assert stem + " " + version + "!" + ext == stem + t3;
    assert stem + "_" + version + "_" + ext == stem + ("_" + (version + ("_" + ext)));
  }

  // `path.Base` from Go's standard library, as main.go:119 applies it.

  /** `p` without its trailing slashes. */
  function TrimTrailingSlashes(p: string): (r: string)
    ensures r <= p
    ensures r == [] || r[|r| - 1] != '/'
    ensures forall i :: |r| <= i < |p| ==> p[i] == '/'
  {
    if p != [] && p[|p| - 1] == '/' then TrimTrailingSlashes(p[..|p| - 1]) else p
  }

  /** What follows the last slash of `p` (all of `p` when it has none). */
  function LastSegment(p: string): (r: string)
    ensures '/' !in r
    ensures |r| <= |p| && r == p[|p| - |r|..]
    ensures |r| < |p| ==> p[|p| - |r| - 1] == '/'
  {
    if p == [] || p[|p| - 1] == '/' then []
    else LastSegment(p[..|p| - 1]) + [p[|p| - 1]]
  }

  /** `path.Base`: the last slash-separated element of `path` once trailing
      slashes are removed; "." for the empty path and "/" for a path of
      slashes only. */
  function Base(path: string): (r: string)
    ensures r != []
    ensures '/' in r ==> r == "/"
  {
    if path == [] then "."
    else
      var last := LastSegment(TrimTrailingSlashes(path));
      if last == [] then "/" else last
  }

  /** The base name of `dir/name`, with or without trailing slashes, is
      `name`; so is the base name of `name` alone. */
  lemma BaseOfJoin(dir: string, name: string, slashes: string)
    requires name != [] && '/' !in name
    requires forall i :: 0 <= i < |slashes| ==> slashes[i] == '/'
    ensures Base(dir + "/" + name + slashes) == name
    ensures Base(name + slashes) == name
  {
    TrimJoin(dir + "/", name, slashes);
    TrimJoin([], name, slashes);
    LastSegmentJoin(dir + "/", name);
    LastSegmentJoin([], name);
  }

  lemma {:induction false} TrimJoin(prefix: string, name: string, slashes: string)
    requires name != [] && name[|name| - 1] != '/'
    requires forall i :: 0 <= i < |slashes| ==> slashes[i] == '/'
    ensures TrimTrailingSlashes(prefix + name + slashes) == prefix + name
    decreases |slashes|
  {
    if slashes != [] {
      var shorter := slashes[..|slashes| - 1];
      assert (prefix + name + slashes)[..|prefix + name + slashes| - 1] == prefix + name + shorter;
      TrimJoin(prefix, name, shorter);
    } else {
      assert prefix + name + slashes == prefix + name;
    }
  }

  lemma {:induction false} LastSegmentJoin(prefix: string, name: string)
    requires '/' !in name
    requires prefix == [] || prefix[|prefix| - 1] == '/'
    ensures LastSegment(prefix + name) == name
    decreases |name|
  {
    if name == [] {
      assert prefix + name == prefix;
    } else {
      var init := name[..|name| - 1];
      assert (prefix + name)[..|prefix + name| - 1] == prefix + init;
      LastSegmentJoin(prefix, init);
      assert name == init + [name[|name| - 1]];
    }
  }

  /** The artifact name a file is checked and uploaded under. */
  function TargetName(file: string): (r: string)
    ensures r != [] && IsSanitized(r)
  {
    Sanitize(Base(file))
  }

  /** A file under a directory is uploaded under its own name when that
      name is made of allowed characters only. */
  lemma TargetNameOfJoin(dir: string, name: string)
    requires name != [] && forall i :: 0 <= i < |name| ==> IsAllowed(name[i])
    ensures TargetName(dir + "/" + name) == name
  {
    assert '/' !in name by {
      assert !IsAllowed('/');
    }
    assert dir + "/" + name + [] == dir + "/" + name;
    BaseOfJoin(dir, name, []);
    AllowedNameUnchanged(name);
  }
}
