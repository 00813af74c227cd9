/** Naming of diagnostic artifacts (`saveArtifacts` in check-stock.js):
    the URL is made file-name safe with `url.replace(/[^a-z0-9]+/gi, '_')`
    followed by `.slice(0, 90)`, and the tag is appended after `_`.

    Without the `u` flag, case-insensitive matching never folds a non-ASCII
    character onto an ASCII one, so the characters the pattern keeps are
    exactly the ASCII letters and digits. The replaced string is then pure
    ASCII, so slicing it by UTF-16 code units and by characters agree. */
module Artifacts {
  import opened Judgment

  /** Longest safe identifier `slice(0, 90)` leaves. */
  const MaxSafeLength: nat := 90

  /** A character `[a-z0-9]` matches under the `i` flag. */
  predicate IsAlnum(c: char)
  {
    'a' <= c <= 'z' || 'A' <= c <= 'Z' || '0' <= c <= '9'
  }

  /** Made only of `[A-Za-z0-9_]`, never two `_` side by side. The
      neighbour is bound as a second variable `j == i + 1` rather than
      written `s[i + 1]`, so that the quantifier's trigger `s[i], s[j]`
      cannot feed itself new indices. */
  ghost predicate Normal(s: string)
  {
    && (forall i :: 0 <= i < |s| ==> IsAlnum(s[i]) || s[i] == '_')
    && (forall i, j :: 0 <= i < j < |s| && j == i + 1 && s[i] == '_' ==> s[j] != '_')
  }

  /** The letters and digits of `s`, in order. */
  function Alnums(s: string): string
  {
    if s == [] then [] else (if IsAlnum(s[0]) then [s[0]] else []) + Alnums(s[1..])
  }

  /** `s.replace(/[^a-z0-9]+/gi, '_')`, scanning left to right: a letter
      or digit is copied, the first character of a run of any other
      characters becomes `_`, and the rest of that run is dropped. `inRun`
      says whether the character before `s` belonged to such a run. */
  function CollapseFrom(s: string, inRun: bool): (r: string)
    ensures Normal(r)
    ensures |r| <= |s|
    ensures inRun ==> r == [] || IsAlnum(r[0])
    ensures Alnums(r) == Alnums(s)
  {
    if s == [] then []
    else if IsAlnum(s[0]) then
      var r := CollapseFrom(s[1..], false);
      NormalCons(s[0], r);
      [s[0]] + r
    else if inRun then
      CollapseFrom(s[1..], true)
    else
      var r := CollapseFrom(s[1..], true);
      NormalCons('_', r);
      "_" + r
  }

  /** The whole replacement: every maximal run of characters other than
      ASCII letters and digits becomes one `_`. */
  function Collapse(s: string): (r: string)
    ensures Normal(r)
    ensures r == [] <==> s == []
    ensures Alnums(r) == Alnums(s)
  {
    var r := CollapseFrom(s, false);
    assert s != [] ==> r != [];
    r
  }

  /** Extending a normal string at the front keeps it normal, unless it
      puts `_` before `_`. */
  lemma NormalCons(c: char, r: string)
    requires Normal(r)
    requires IsAlnum(c) || (c == '_' && (r == [] || IsAlnum(r[0])))
    ensures Normal([c] + r)
  {
    var s := [c] + r;
    forall i, j | 0 <= i < j < |s| && j == i + 1 && s[i] == '_'
      ensures s[j] != '_'
    {
      if i > 0 {
        assert s[i] == r[i - 1] && s[j] == r[i];
      }
    }
  }

  /** The safe identifier: the collapsed URL cut to 90 characters. */
  function Sanitize(url: string): (safe: string)
    ensures |safe| <= MaxSafeLength
    ensures Normal(safe)
    ensures safe <= Collapse(url)
    ensures |Collapse(url)| <= MaxSafeLength ==> safe == Collapse(url)
    ensures |Collapse(url)| > MaxSafeLength ==> |safe| == MaxSafeLength
    ensures Alnums(safe) <= Alnums(url)
  {
    var c := Collapse(url);
    var safe := if |c| <= MaxSafeLength then c else c[..MaxSafeLength];
    AlnumsAppend(safe, c[|safe|..]);
    assert safe + c[|safe|..] == c;
    safe
  }

  /** `<safe>_<tag>`, the base name of both the screenshot and the markup dump. */
  function ArtifactBase(url: string, tag: Tag): (name: string)
    ensures forall i :: 0 <= i < |name| ==> IsAlnum(name[i]) || name[i] == '_'
    ensures |name| <= MaxSafeLength + 1 + |TagName(tag)|
    ensures Sanitize(url) <= name && |name| == |Sanitize(url)| + 1 + |TagName(tag)|
  {
    var safe := Sanitize(url);
    var suffix := "_" + TagName(tag);
    TagNameWord(tag);
    assert forall i :: 0 <= i < |suffix| ==> IsAlnum(suffix[i]) || suffix[i] == '_';
    safe + suffix
  }

  /** Every tag name is itself made of letters and `_`. */
  lemma TagNameWord(tag: Tag)
    ensures forall i :: 0 <= i < |TagName(tag)| ==> IsAlnum(TagName(tag)[i]) || TagName(tag)[i] == '_'
  {
  }

  datatype Option<T> = None | Some(value: T)

  /** Reads the tag back from an artifact base name. */
  function TagOf(name: string): Option<Tag>
  {
    if EndsWith(name, "_" + TagName(HttpError)) then Some(HttpError)
    else if EndsWith(name, "_" + TagName(Unknown)) then Some(Unknown)
    else if EndsWith(name, "_" + TagName(Exception)) then Some(Exception)
    else None
  }

  predicate EndsWith(s: string, suffix: string)
  {
    |suffix| <= |s| && s[|s| - |suffix|..] == suffix
  }

  lemma {:induction false} AlnumsAppend(a: string, b: string)
    ensures Alnums(a + b) == Alnums(a) + Alnums(b)
  {
    if a == [] {
      assert a + b == b;
    } else {
      var head := if IsAlnum(a[0]) then [a[0]] else [];
      assert (a + b)[0] == a[0];
      assert (a + b)[1..] == a[1..] + b;
      AlnumsAppend(a[1..], b);
      calc {
        Alnums(a + b);
        head + Alnums(a[1..] + b);
        head + (Alnums(a[1..]) + Alnums(b));
        (head + Alnums(a[1..])) + Alnums(b);
      }
    }
  }

  /** Inside a run, further characters of the run are dropped. */
  lemma {:induction false} CollapseGapRest(g: string)
    requires forall i :: 0 <= i < |g| ==> !IsAlnum(g[i])
    ensures CollapseFrom(g, true) == []
  {
    if g != [] {
      CollapseGapRest(g[1..]);
    }
  }

  /** A non-empty run without letters or digits becomes a single `_`. */
  lemma CollapseGap(g: string)
    requires g != []
    requires forall i :: 0 <= i < |g| ==> !IsAlnum(g[i])
    ensures Collapse(g) == "_"
  {
    CollapseGapRest(g[1..]);
  }

  lemma {:induction false} CollapseFromSplit(a: string, inRun: bool, c: char, b: string)
    requires IsAlnum(c)
    ensures CollapseFrom(a + [c] + b, inRun) == CollapseFrom(a, inRun) + [c] + CollapseFrom(b, false)
    decreases |a|
  {
    var s := a + [c] + b;
    if a == [] {
      assert s == [c] + b;
      assert s[1..] == b;
    } else {
      assert s[0] == a[0];
      assert s[1..] == a[1..] + [c] + b;
      CollapseFromSplit(a[1..], !IsAlnum(a[0]), c, b);
    }
  }

  /** Replacement works piecewise around any letter or digit. Together with
      `CollapseGap` and `Collapse([]) == []` this pins `Collapse` down on
      every string: it is the run-collapsing replacement and nothing else. */
  lemma CollapseSplit(a: string, c: char, b: string)
    requires IsAlnum(c)
    ensures Collapse(a + [c] + b) == Collapse(a) + [c] + Collapse(b)
  {
    CollapseFromSplit(a, false, c, b);
  }

  lemma {:induction false} CollapseFromNormal(t: string, inRun: bool)
    requires Normal(t)
    requires inRun ==> t == [] || t[0] != '_'
    ensures CollapseFrom(t, inRun) == t
    decreases |t|
  {
    if t != [] {
      assert Normal(t[1..]) by {
        forall i, j | 0 <= i < j < |t[1..]| && j == i + 1 && t[1..][i] == '_'
          ensures t[1..][j] != '_'
        {
          assert t[i + 1] == '_' && t[1..][j] == t[j + 1];
        }
      }
      if t[0] == '_' && |t| > 1 {
        assert t[1] != '_';
      }
      CollapseFromNormal(t[1..], !IsAlnum(t[0]));
      assert [t[0]] + t[1..] == t;
    }
  }

  /** Text that is already normal is left alone by the replacement. */
  lemma CollapseNormal(t: string)
    requires Normal(t)
    ensures Collapse(t) == t
  {
    CollapseFromNormal(t, false);
  }

  /** Sanitising a safe identifier again changes nothing. */
  lemma SanitizeIdempotent(url: string)
    ensures Sanitize(Sanitize(url)) == Sanitize(url)
  {
    CollapseNormal(Sanitize(url));
  }

  /** The URL part of an artifact base name made for `tag`. */
  function SafePart(name: string, tag: Tag): string
  {
    if |name| < 1 + |TagName(tag)| then [] else name[..|name| - 1 - |TagName(tag)|]
  }

  /** The name says which capture made it and for which URL: both the tag
      and the safe identifier are read back from it. */
  lemma TagRecoverable(url: string, tag: Tag)
    ensures TagOf(ArtifactBase(url, tag)) == Some(tag)
    ensures SafePart(ArtifactBase(url, tag), tag) == Sanitize(url)
  {
    var name := ArtifactBase(url, tag);
    var suffix := "_" + TagName(tag);
    assert name == Sanitize(url) + suffix;
    assert name[|name| - |suffix|..] == suffix;
    assert name[..|name| - |suffix|] == Sanitize(url);
    var n := |name|;
    assert name[n - 1] == suffix[|suffix| - 1];
    assert name[n - 2] == suffix[|suffix| - 2];
    if tag != HttpError {
      // every tag but `http_error` ends in "n", which "_http_error" does not
      assert !EndsWith(name, "_" + TagName(HttpError));
    }
    if tag == Exception {
      // "exception" ends in "on", "unknown" in "wn"
      assert !EndsWith(name, "_" + TagName(Unknown));
    }
  }

  /** Two captures share a base name only when they have the same tag and
      their URLs sanitise to the same identifier. */
  lemma ArtifactBaseInjective(url1: string, tag1: Tag, url2: string, tag2: Tag)
    requires ArtifactBase(url1, tag1) == ArtifactBase(url2, tag2)
    ensures tag1 == tag2 && Sanitize(url1) == Sanitize(url2)
  {
    TagRecoverable(url1, tag1);
    TagRecoverable(url2, tag2);
  }
}
