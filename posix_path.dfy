/** The two `os.path` functions the transcoding job uses, as POSIX defines them. */
module PosixPath {
  import opened PyStr

  /** `os.path.basename(p)`: the longest suffix of `p` without a `/`. */
  function Basename(p: string): (b: string)
    ensures '/' !in b
    ensures |b| <= |p| && b == p[|p| - |b|..]
    ensures |b| < |p| ==> p[|p| - |b| - 1] == '/'
  {
    if p == [] || p[|p| - 1] == '/' then []
    else Basename(p[..|p| - 1]) + [p[|p| - 1]]
  }

  /** `os.path.join(a, b)` for two components: an absolute `b` replaces `a`; otherwise
      exactly one `/` separates the two, added only when `a` is non-empty and lacks one. */
  function Join(a: string, b: string): (r: string)
    ensures StartsWith(b, "/") ==> r == b
    ensures !StartsWith(b, "/") && (a == [] || EndsWith(a, "/")) ==> r == a + b
    ensures !StartsWith(b, "/") && a != [] && !EndsWith(a, "/") ==> r == a + "/" + b
  {
    if StartsWith(b, "/") then b
    else if a == [] || a[|a| - 1] == '/' then a + b
    else a + "/" + b
  }

  /** A name without `/` is its own basename. */
  lemma BasenameOfName(name: string)
    requires '/' !in name
    ensures Basename(name) == name
  {
  }

  /** One more character other than `/` extends the basename by it. */
  lemma BasenameSnoc(p: string, c: char)
    requires c != '/'
    ensures Basename(p + [c]) == Basename(p) + [c]
  {
    assert (p + [c])[..|p|] == p;
  }

  /** Appending a suffix without `/` appends it to the basename. */
  lemma {:induction false} BasenameAppend(p: string, suffix: string)
    requires '/' !in suffix
    ensures Basename(p + suffix) == Basename(p) + suffix
    decreases |suffix|
  {
    if suffix == [] {
      assert p + suffix == p;
    } else {
      var init, last := suffix[..|suffix| - 1], suffix[|suffix| - 1];
      assert suffix == init + [last];
      assert p + suffix == (p + init) + [last];
      assert last in suffix;
      assert '/' !in init by {
        forall c | c in init ensures c != '/' {
          assert c in suffix;
        }
      }
      calc {
        Basename(p + suffix);
        Basename((p + init) + [last]);
        { BasenameSnoc(p + init, last); }
        Basename(p + init) + [last];
        { BasenameAppend(p, init); }
        (Basename(p) + init) + [last];
        Basename(p) + suffix;
      }
    }
  }

  /** Joining a directory and a file name yields a path whose basename is the name. */
  lemma BasenameOfJoin(dir: string, name: string)
    requires name != [] && '/' !in name
    ensures Basename(Join(dir, name)) == name
  {
    assert name[0] in name;
    assert !StartsWith(name, "/");
    if dir == [] || dir[|dir| - 1] == '/' {
      assert Join(dir, name) == dir + name;
      BasenameAppend(dir, name);
    } else {
      assert Join(dir, name) == (dir + "/") + name;
      BasenameAppend(dir + "/", name);
    }
  }

  /** A suffix holding a `/` alone decides the basename. */
  lemma {:induction false} BasenameOfSuffix(p: string, b: string)
    requires '/' in b
    ensures Basename(p + b) == Basename(b)
    decreases |b|
  {
    var last := b[|b| - 1];
    if last != '/' {
      var init := b[..|b| - 1];
      assert b == init + [last];
      assert '/' in init;
      BasenameOfSuffix(p, init);
      assert p + b == (p + init) + [last];
      BasenameSnoc(p + init, last);
      BasenameSnoc(init, last);
    }
  }

  /** The basename of `join(a, b)` is the basename of `b`, for any `b` that does not
      end in `/`: a file keeps its own name wherever it is joined. */
  lemma BasenameOfJoinAny(a: string, b: string)
    requires b != [] && b[|b| - 1] != '/'
    ensures Basename(Join(a, b)) == Basename(b)
  {
    if !StartsWith(b, "/") {
      var p := Join(a, b)[..|Join(a, b)| - |b|];
      assert Join(a, b) == p + b;
      assert p == [] || p[|p| - 1] == '/';
      if '/' in b {
        BasenameOfSuffix(p, b);
      } else {
        BasenameAppend(p, b);
        BasenameOfName(b);
      }
    }
  }
}
