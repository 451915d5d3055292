/** `VideoDownloadProcessor.sanitize_filename`, parameterised by the list of
    special strings it replaces (the two copies of the program differ only in
    that list). */
module Sanitize {

  /** The pattern removed first; it is matched literally. */
  const DownloadsMarker: string := "__downloads_"

  /** Characters the extension rewrite produces or inspects. */
  const ExtensionChars: string := "_.mp4\n"

  /** `s` has no occurrence of `pat` (a nonempty pattern). */
  predicate Absent(pat: string, s: string)
    requires |pat| > 0
    decreases |s|
  {
    |s| < |pat| || (s[..|pat|] != pat && Absent(pat, s[1..]))
  }

  /** Python's `s.replace(pat, rep)`, and equally `re.sub` on a literal
      pattern: every leftmost non-overlapping occurrence is replaced, and the
      replacement is not scanned again. */
  function ReplaceAll(s: string, pat: string, rep: string): (r: string)
    requires |pat| > 0
    ensures |rep| <= |pat| ==> |r| <= |s|
    ensures |rep| == |pat| ==> |r| == |s|
    decreases |s|
  {
    if |s| < |pat| then s
    else if s[..|pat|] == pat then rep + ReplaceAll(s[|pat|..], pat, rep)
    else [s[0]] + ReplaceAll(s[1..], pat, rep)
  }

  /** The `for` loop: each entry, in list order, is replaced by `_`. */
  function ReplaceEach(entries: seq<string>, s: string): (r: string)
    requires forall i :: 0 <= i < |entries| ==> |entries[i]| > 0
    ensures |r| <= |s|
    ensures (forall i :: 0 <= i < |entries| ==> |entries[i]| == 1) ==> |r| == |s|
  {
    if |entries| == 0 then s
    else ReplaceAll(ReplaceEach(entries[..|entries| - 1], s), entries[|entries| - 1], "_")
  }

  /** `re.sub(r'_+', '_', s)`: every run of underscores becomes one. */
  function Collapse(s: string): (r: string)
    ensures |r| <= |s|
    decreases |s|
  {
    if |s| == 0 then s
    else if |s| >= 2 && s[0] == '_' && s[1] == '_' then Collapse(s[1..])
    else [s[0]] + Collapse(s[1..])
  }

  /** `s` without its trailing run of underscores. */
  function TrimUnderscores(s: string): (r: string)
    ensures |r| <= |s| && r == s[..|r|]
    ensures |r| == 0 || r[|r| - 1] != '_'
    ensures forall k :: |r| <= k < |s| ==> s[k] == '_'
  {
    if |s| > 0 && s[|s| - 1] == '_' then TrimUnderscores(s[..|s| - 1]) else s
  }

  /** `s` ends in `mp4` preceded by an underscore. */
  predicate EndsUnderscoreMp4(s: string)
  {
    |s| >= 4 && s[|s| - 3..] == "mp4" && s[|s| - 4] == '_'
  }

  /** The same just before a final newline, where Python's `$` also matches. */
  predicate EndsUnderscoreMp4Newline(s: string)
  {
    |s| >= 5 && s[|s| - 4..] == "mp4\n" && s[|s| - 5] == '_'
  }

  /** `re.sub(r'_+mp4$', '.mp4', s)`: the underscores before a final `mp4`
      become a dot. `$` matches at the end and before a final newline, and
      the pattern can match at only one of the two. */
  function FixExtension(s: string): (r: string)
    ensures |r| <= |s|
    ensures EndsUnderscoreMp4(s) ==> |r| >= 4 && r[|r| - 4..] == ".mp4" && (|r| == 4 || r[|r| - 5] != '_')
    ensures EndsUnderscoreMp4Newline(s) ==> |r| >= 5 && r[|r| - 5..] == ".mp4\n" && (|r| == 5 || r[|r| - 6] != '_')
    ensures !EndsUnderscoreMp4(s) && !EndsUnderscoreMp4Newline(s) ==> r == s
  {
    if EndsUnderscoreMp4(s) then
      var r := TrimUnderscores(s[..|s| - 3]) + ".mp4";
      assert r[|r| - 4..] == ".mp4";
      r
    else if EndsUnderscoreMp4Newline(s) then
      var r := TrimUnderscores(s[..|s| - 4]) + ".mp4\n";
      assert r[|r| - 5..] == ".mp4\n";
      r
    else s
  }

  /** `sanitize_filename` for the replacement list `entries`. */
  function Sanitized(entries: seq<string>, s: string): (r: string)
    requires forall i :: 0 <= i < |entries| ==> |entries[i]| > 0
    ensures |r| <= |s|
  {
    FixExtension(Collapse(ReplaceEach(entries, ReplaceAll(s, DownloadsMarker, ""))))
  }

  /** The intermediate string before the extension rewrite. */
  function Collapsed(entries: seq<string>, s: string): string
    requires forall i :: 0 <= i < |entries| ==> |entries[i]| > 0
  {
    Collapse(ReplaceEach(entries, ReplaceAll(s, DownloadsMarker, "")))
  }

  /** `sanitize_filename`, step by step as the program does it. */
  method SanitizeFilename(entries: seq<string>, filename: string) returns (r: string)
    requires forall i :: 0 <= i < |entries| ==> |entries[i]| > 0
    ensures r == Sanitized(entries, filename)
  {
    r := ReplaceAll(filename, DownloadsMarker, "");
    ghost var removed := r;
    for k := 0 to |entries|
      invariant r == ReplaceEach(entries[..k], removed)
    {
      assert entries[..k + 1][..k] == entries[..k];
      r := ReplaceAll(r, entries[k], "_");
    }
    assert entries[..|entries|] == entries;
    r := Collapse(r);
    r := FixExtension(r);
  }

  /** The lists the model is proved for: every entry is nonempty, `.` is an
      entry, and any other entry avoids the underscore and the characters of
      the `.mp4` extension (with the newline `$` accepts after it). */
  predicate ValidEntries(entries: seq<string>)
  {
    && "." in entries
    && forall i :: 0 <= i < |entries| ==>
         |entries[i]| > 0
         && (entries[i] == "." || forall k :: 0 <= k < |entries[i]| ==> entries[i][k] !in ExtensionChars)
  }

  /** No two adjacent underscores. */
  predicate NoDoubleUnderscore(s: string)
  {
    forall i :: 0 <= i < |s| - 1 ==> !(s[i] == '_' && s[i + 1] == '_')
  }

  // ---------------------------------------------------------------- lengths

  // ---------------------------------------------------- absence of patterns

  lemma {:induction false} AbsentReplaceAllIdentity(s: string, pat: string, rep: string)
    requires |pat| > 0 && Absent(pat, s)
    ensures ReplaceAll(s, pat, rep) == s
    decreases |s|
  {
    if |s| >= |pat| {
      AbsentReplaceAllIdentity(s[1..], pat, rep);
    }
  }

  lemma {:induction false} AbsentPrefix(pat: string, s: string, k: nat)
    requires |pat| > 0 && Absent(pat, s) && k <= |s|
    ensures Absent(pat, s[..k])
    decreases |s|
  {
    if k >= |pat| {
      assert s[..k][..|pat|] == s[..|pat|];
      assert s[..k][1..] == s[1..][..k - 1];
      AbsentPrefix(pat, s[1..], k - 1);
    }
  }

  lemma {:induction false} AbsentSuffix(pat: string, s: string, k: nat)
    requires |pat| > 0 && Absent(pat, s) && k <= |s|
    ensures Absent(pat, s[k..])
    decreases k
  {
    if k > 0 && |s| >= |pat| {
      AbsentSuffix(pat, s[1..], k - 1);
      assert s[1..][k - 1..] == s[k..];
    }
  }

  /** A pattern whose first character `s` lacks is absent from `s`. */
  lemma {:induction false} AbsentByFirstChar(pat: string, s: string)
    requires |pat| > 0 && pat[0] !in s
    ensures Absent(pat, s)
    decreases |s|
  {
    if |s| >= |pat| {
      assert s[..|pat|][0] == s[0] && s[0] in s;
      assert forall c :: c in s[1..] ==> c in s;
      AbsentByFirstChar(pat, s[1..]);
    }
  }

  /** A one-character pattern is absent exactly when the character is. */
  lemma {:induction false} AbsentCharIff(c: char, s: string)
    ensures Absent([c], s) <==> c !in s
    decreases |s|
  {
    if |s| > 0 {
      AbsentCharIff(c, s[1..]);
      assert s[..1] == [s[0]];
      assert s == [s[0]] + s[1..];
    }
  }

  /** Appending `b` keeps `pat` absent when `b`'s first character is not in
      `pat` and `pat` is absent from the rest of `b`. */
  lemma {:induction false} AbsentAppend(pat: string, a: string, b: string)
    requires |pat| > 0 && |b| > 0 && b[0] !in pat
    requires Absent(pat, a) && Absent(pat, b[1..])
    ensures Absent(pat, a + b)
    decreases |a|
  {
    var s := a + b;
    if |s| >= |pat| {
      if |a| >= |pat| {
        assert s[..|pat|] == a[..|pat|];
      } else {
        assert s[..|pat|][|a|] == b[0];
      }
      if |a| == 0 {
        assert s[1..] == b[1..];
      } else {
        if |a| >= |pat| {
          assert Absent(pat, a[1..]);
        }
        AbsentAppend(pat, a[1..], b);
        assert s[1..] == a[1..] + b;
      }
    }
  }

  /** `DownloadsMarker` cannot occur where no two underscores are adjacent. */
  lemma {:induction false} NoDoubleMarkerAbsent(s: string)
    requires NoDoubleUnderscore(s)
    ensures Absent(DownloadsMarker, s)
    decreases |s|
  {
    if |s| >= |DownloadsMarker| {
      assert DownloadsMarker[0] == '_' && DownloadsMarker[1] == '_';
      assert s[..|DownloadsMarker|][0] == s[0] && s[..|DownloadsMarker|][1] == s[1];
      NoDoubleMarkerAbsent(s[1..]);
    }
  }

  // ------------------------------------------------- what replacement keeps

  /** A replacement by `_` changes a prefix only by putting an underscore in it:
      a prefix of the result without underscores is a prefix of the input. */
  lemma {:induction false} ReplacedPrefix(t: string, pat: string, k: nat)
    requires |pat| > 0
    ensures k <= |ReplaceAll(t, pat, "_")| ==>
      '_' in ReplaceAll(t, pat, "_")[..k] || (k <= |t| && ReplaceAll(t, pat, "_")[..k] == t[..k])
    decreases |t|
  {
    var r := ReplaceAll(t, pat, "_");
    if k > 0 && k <= |r| && |t| >= |pat| {
      if t[..|pat|] == pat {
        assert r[..k][0] == '_';
      } else {
        var rest := ReplaceAll(t[1..], pat, "_");
        assert r == [t[0]] + rest;
        ReplacedPrefix(t[1..], pat, k - 1);
        assert r[..k] == [t[0]] + rest[..k - 1];
        if '_' in rest[..k - 1] {
          var i :| 0 <= i < k - 1 && rest[..k - 1][i] == '_';
          assert r[..k][i + 1] == '_';
        }
      }
    }
  }

  /** The same for collapsing underscores. */
  lemma {:induction false} CollapsedPrefix(t: string, k: nat)
    ensures k <= |Collapse(t)| ==>
      '_' in Collapse(t)[..k] || (k <= |t| && Collapse(t)[..k] == t[..k])
    decreases |t|
  {
    var r := Collapse(t);
    if k > 0 && k <= |r| {
      if |t| >= 2 && t[0] == '_' && t[1] == '_' {
        CollapseFirst(t[1..]);
        assert r[..k][0] == '_';
      } else {
        var rest := Collapse(t[1..]);
        assert r == [t[0]] + rest;
        CollapsedPrefix(t[1..], k - 1);
        assert r[..k] == [t[0]] + rest[..k - 1];
        if '_' in rest[..k - 1] {
          var i :| 0 <= i < k - 1 && rest[..k - 1][i] == '_';
          assert r[..k][i + 1] == '_';
        }
      }
    }
  }

  /** Collapsing keeps the first character. */
  lemma {:induction false} CollapseFirst(t: string)
    requires |t| > 0
    ensures |Collapse(t)| > 0 && Collapse(t)[0] == t[0]
    decreases |t|
  {
    if |t| >= 2 && t[0] == '_' && t[1] == '_' {
      CollapseFirst(t[1..]);
    }
  }

  /** A pattern without underscores that starts `[c] + x` leaves no
      underscore in the first `|pat| - 1` characters of `x`. */
  lemma UnderscoreFree(pat: string, c: char, x: string)
    requires |pat| > 0 && '_' !in pat
    requires |[c] + x| >= |pat| && ([c] + x)[..|pat|] == pat
    ensures |pat| - 1 <= |x| && '_' !in x[..|pat| - 1]
  {
    forall i | 0 <= i < |pat| - 1 ensures x[i] != '_' {
      assert x[i] == ([c] + x)[..|pat|][i + 1];
    }
  }

  /** Shared step: if `[s[0]] + x` starts with `pat` and `x` agrees with
      `s[1..]` on the characters that matter, `s` starts with `pat`. */
  lemma FrontMatch(pat: string, x: string, s: string)
    requires |pat| > 0 && |s| >= |pat|
    requires |[s[0]] + x| >= |pat| && ([s[0]] + x)[..|pat|] == pat
    requires x[..|pat| - 1] == s[1..][..|pat| - 1]
    ensures s[..|pat|] == pat
  {
    assert s[..|pat|] == [s[0]] + s[1..][..|pat| - 1];
    assert ([s[0]] + x)[..|pat|] == [s[0]] + x[..|pat| - 1];
  }

  /** Replacing `pat` by `_` removes every occurrence of it. */
  lemma {:induction false} ReplaceAllRemoves(s: string, pat: string)
    requires |pat| > 0 && '_' !in pat
    ensures Absent(pat, ReplaceAll(s, pat, "_"))
    decreases |s|
  {
    if |s| >= |pat| {
      if s[..|pat|] == pat {
        ReplaceAllRemoves(s[|pat|..], pat);
        var r := "_" + ReplaceAll(s[|pat|..], pat, "_");
        if |r| >= |pat| {
          assert r[..|pat|][0] == '_';
        }
        assert r[1..] == ReplaceAll(s[|pat|..], pat, "_");
      } else {
        var x := ReplaceAll(s[1..], pat, "_");
        ReplaceAllRemoves(s[1..], pat);
        assert ReplaceAll(s, pat, "_") == [s[0]] + x;
        assert ([s[0]] + x)[1..] == x;
        if |[s[0]] + x| >= |pat| && ([s[0]] + x)[..|pat|] == pat {
          UnderscoreFree(pat, s[0], x);
          ReplacedPrefix(s[1..], pat, |pat| - 1);
          FrontMatch(pat, x, s);
        }
      }
    } else {
      assert ReplaceAll(s, pat, "_") == s;
    }
  }

  /** Replacing another pattern by `_` creates no occurrence of an
      underscore-free pattern. */
  lemma {:induction false} ReplaceAllKeepsAbsent(s: string, pat: string, q: string)
    requires |pat| > 0 && |q| > 0 && '_' !in q && Absent(q, s)
    ensures Absent(q, ReplaceAll(s, pat, "_"))
    decreases |s|
  {
    if |s| >= |pat| {
      if s[..|pat|] == pat {
        AbsentSuffix(q, s, |pat|);
        ReplaceAllKeepsAbsent(s[|pat|..], pat, q);
        var r := "_" + ReplaceAll(s[|pat|..], pat, "_");
        if |r| >= |q| {
          assert r[..|q|][0] == '_';
          assert '_' in q ==> true;
        }
        assert r[1..] == ReplaceAll(s[|pat|..], pat, "_");
      } else {
        var x := ReplaceAll(s[1..], pat, "_");
        AbsentSuffix(q, s, 1);
        ReplaceAllKeepsAbsent(s[1..], pat, q);
        assert ReplaceAll(s, pat, "_") == [s[0]] + x;
        assert ([s[0]] + x)[1..] == x;
        if |[s[0]] + x| >= |q| && ([s[0]] + x)[..|q|] == q {
          UnderscoreFree(q, s[0], x);
          ReplacedPrefix(s[1..], pat, |q| - 1);
          FrontMatch(q, x, s);
        }
      }
    }
  }

  /** Collapsing underscores creates no occurrence of an underscore-free
      pattern. */
  lemma {:induction false} CollapseKeepsAbsent(s: string, q: string)
    requires |q| > 0 && '_' !in q && Absent(q, s)
    ensures Absent(q, Collapse(s))
    decreases |s|
  {
    if |s| > 0 {
      AbsentSuffix(q, s, 1);
      CollapseKeepsAbsent(s[1..], q);
      if !(|s| >= 2 && s[0] == '_' && s[1] == '_') {
        var x := Collapse(s[1..]);
        assert Collapse(s) == [s[0]] + x;
        assert ([s[0]] + x)[1..] == x;
        if |[s[0]] + x| >= |q| && ([s[0]] + x)[..|q|] == q {
          UnderscoreFree(q, s[0], x);
          CollapsedPrefix(s[1..], |q| - 1);
          FrontMatch(q, x, s);
        }
      }
    }
  }

  /** After the loop no entry occurs any more. */
  lemma {:induction false} ReplaceEachRemoves(entries: seq<string>, s: string)
    requires forall i :: 0 <= i < |entries| ==> |entries[i]| > 0 && '_' !in entries[i]
    ensures forall i :: 0 <= i < |entries| ==> Absent(entries[i], ReplaceEach(entries, s))
  {
    if |entries| > 0 {
      var n := |entries| - 1;
      var init := entries[..n];
      ReplaceEachRemoves(init, s);
      var t := ReplaceEach(init, s);
      forall i | 0 <= i < |entries| ensures Absent(entries[i], ReplaceAll(t, entries[n], "_")) {
        if i == n {
          ReplaceAllRemoves(t, entries[n]);
        } else {
          assert entries[i] == init[i];
          ReplaceAllKeepsAbsent(t, entries[n], entries[i]);
        }
      }
    }
  }

  /** The loop leaves a string without entries unchanged. */
  lemma {:induction false} ReplaceEachIdentity(entries: seq<string>, s: string)
    requires forall i :: 0 <= i < |entries| ==> |entries[i]| > 0 && Absent(entries[i], s)
    ensures ReplaceEach(entries, s) == s
  {
    if |entries| > 0 {
      ReplaceEachIdentity(entries[..|entries| - 1], s);
      AbsentReplaceAllIdentity(s, entries[|entries| - 1], "_");
    }
  }

  /** The loop on a string `x` that exactly one kind of entry rewrites, into
      `y`, which no entry occurs in. */
  lemma {:induction false} ReplaceEachRewritesOnce(entries: seq<string>, x: string, y: string)
    requires forall i :: 0 <= i < |entries| ==>
      (|entries[i]| > 0 && Absent(entries[i], y)
       && (Absent(entries[i], x) || ReplaceAll(x, entries[i], "_") == y))
    ensures ReplaceEach(entries, x) == x || ReplaceEach(entries, x) == y
    ensures (exists i :: 0 <= i < |entries| && !Absent(entries[i], x)) ==> ReplaceEach(entries, x) == y
  {
    if |entries| > 0 {
      var n := |entries| - 1;
      var init := entries[..n];
      ReplaceEachRewritesOnce(init, x, y);
      var t := ReplaceEach(init, x);
      if t == y {
        AbsentReplaceAllIdentity(y, entries[n], "_");
      } else if Absent(entries[n], x) {
        AbsentReplaceAllIdentity(x, entries[n], "_");
        assert forall i :: 0 <= i < n ==> init[i] == entries[i];
      }
    }
  }

  // ------------------------------------------------------- runs of '_'

  /** Collapsing leaves no two adjacent underscores. */
  lemma {:induction false} CollapseNoDouble(s: string)
    ensures NoDoubleUnderscore(Collapse(s))
    decreases |s|
  {
    if |s| > 0 {
      CollapseNoDouble(s[1..]);
      if !(|s| >= 2 && s[0] == '_' && s[1] == '_') {
        var x := Collapse(s[1..]);
        if |s| >= 2 {
          CollapseFirst(s[1..]);
        }
        assert forall i :: 1 <= i < |x| ==> ([s[0]] + x)[i] == x[i - 1];
      }
    }
  }

  /** Collapsing a string without runs changes nothing. */
  lemma {:induction false} CollapseIdentity(s: string)
    requires NoDoubleUnderscore(s)
    ensures Collapse(s) == s
    decreases |s|
  {
    if |s| > 0 {
      CollapseIdentity(s[1..]);
    }
  }

  /** The result has no two adjacent underscores. */
  lemma SanitizedNoDoubleUnderscore(entries: seq<string>, s: string)
    requires forall i :: 0 <= i < |entries| ==> |entries[i]| > 0
    ensures NoDoubleUnderscore(Sanitized(entries, s))
  {
    var c := Collapsed(entries, s);
    CollapseNoDouble(ReplaceEach(entries, ReplaceAll(s, DownloadsMarker, "")));
    if EndsUnderscoreMp4(c) {
      var p := TrimUnderscores(c[..|c| - 3]);
      assert forall i :: 0 <= i < |p| ==> p[i] == c[i];
    } else if EndsUnderscoreMp4Newline(c) {
      var p := TrimUnderscores(c[..|c| - 4]);
      assert forall i :: 0 <= i < |p| ==> p[i] == c[i];
    }
  }

  // ------------------------------------------------------------ idempotence

  /** What holds of the collapsed intermediate string for a valid list. */
  lemma CollapsedFacts(entries: seq<string>, s: string)
    requires ValidEntries(entries)
    ensures NoDoubleUnderscore(Collapsed(entries, s))
    ensures forall i :: 0 <= i < |entries| ==> Absent(entries[i], Collapsed(entries, s))
  {
    var t := ReplaceEach(entries, ReplaceAll(s, DownloadsMarker, ""));
    forall i | 0 <= i < |entries| ensures '_' !in entries[i] {
      if entries[i] != "." {
        assert forall k :: 0 <= k < |entries[i]| ==> entries[i][k] != '_' by {
          assert ExtensionChars[0] == '_';
        }
      }
    }
    ReplaceEachRemoves(entries, ReplaceAll(s, DownloadsMarker, ""));
    forall i | 0 <= i < |entries| ensures Absent(entries[i], Collapse(t)) {
      CollapseKeepsAbsent(t, entries[i]);
    }
    CollapseNoDouble(t);
  }

  /** An entry other than `.` misses every extension character. */
  lemma OtherEntryAvoidsExtension(entries: seq<string>, i: int, b: string)
    requires ValidEntries(entries) && 0 <= i < |entries| && entries[i] != "."
    requires forall k :: 0 <= k < |b| ==> b[k] in ExtensionChars
    ensures entries[i][0] !in b
    ensures forall k :: 0 <= k < |b| ==> b[k] !in entries[i]
  {
  }

  /** The extension the rewrite produces: `.mp4`, or `.mp4` and the final
      newline `$` lets through. */
  function DotExtension(newline: bool): string
  {
    if newline then ".mp4\n" else ".mp4"
  }

  /** The same extension with its dot replaced by an underscore. */
  function UnderscoreExtension(newline: bool): string
  {
    if newline then "_mp4\n" else "_mp4"
  }

  lemma ExtensionShapes(newline: bool)
    ensures var d, u := DotExtension(newline), UnderscoreExtension(newline);
      && |d| == |u| >= 4 && d[0] == '.' && u[0] == '_' && d[1..] == u[1..]
      && '.' !in d[1..] && '.' !in u && '_' !in d[1..]
      && (forall k :: 0 <= k < |d| ==> d[k] in ExtensionChars)
      && (forall k :: 0 <= k < |u| ==> u[k] in ExtensionChars)
      && NoDoubleUnderscore(d) && NoDoubleUnderscore(u)
  {
  }

  /** A character is in a concatenation exactly when it is in either part. */
  lemma InAppend(c: char, a: string, b: string)
    ensures c in a + b <==> c in a || c in b
  {
    if c in a + b {
      var k :| 0 <= k < |a + b| && (a + b)[k] == c;
      if k >= |a| {
        assert b[k - |a|] == c;
      }
    }
    if c in a {
      var k :| 0 <= k < |a| && a[k] == c;
      assert (a + b)[k] == c;
    }
    if c in b {
      var k :| 0 <= k < |b| && b[k] == c;
      assert (a + b)[|a| + k] == c;
    }
  }

  /** `s.replace(c, r)` for one character distributes over concatenation. */
  lemma {:induction false} ReplaceAllChars(a: string, b: string, c: char)
    ensures ReplaceAll(a + b, [c], "_") == ReplaceAll(a, [c], "_") + ReplaceAll(b, [c], "_")
    decreases |a|
  {
    if |a| > 0 {
      ReplaceAllChars(a[1..], b, c);
      assert (a + b)[1..] == a[1..] + b;
      assert (a + b)[..1] == a[..1];
    } else {
      assert a + b == b;
    }
  }

  /** The dot entry turns the extension's dot into an underscore. */
  lemma DotEntryOnRewritten(p: string, newline: bool)
    requires Absent(".", p)
    ensures !Absent(".", p + DotExtension(newline))
    ensures ReplaceAll(p + DotExtension(newline), ".", "_") == p + UnderscoreExtension(newline)
    ensures Absent(".", p + UnderscoreExtension(newline))
  {
    var d, e := DotExtension(newline), UnderscoreExtension(newline);
    ExtensionShapes(newline);
    AbsentCharIff('.', p);
    AbsentCharIff('.', p + d);
    AbsentCharIff('.', p + e);
    assert (p + d)[|p|] == '.';
    InAppend('.', p, e);
    ReplaceAllChars(p, d, '.');
    AbsentReplaceAllIdentity(p, ".", "_");
    AbsentCharIff('.', d[1..]);
    AbsentReplaceAllIdentity(d[1..], ".", "_");
    assert d[..1] == ".";
    assert e == "_" + d[1..];
  }

  /** Every other entry occurs neither before nor after that rewrite. */
  lemma OtherEntryOnRewritten(entries: seq<string>, i: int, p: string, newline: bool)
    requires ValidEntries(entries) && 0 <= i < |entries| && entries[i] != "."
    requires Absent(entries[i], p)
    ensures Absent(entries[i], p + DotExtension(newline))
    ensures Absent(entries[i], p + UnderscoreExtension(newline))
  {
    var d, e := DotExtension(newline), UnderscoreExtension(newline);
    ExtensionShapes(newline);
    OtherEntryAvoidsExtension(entries, i, d);
    OtherEntryAvoidsExtension(entries, i, e);
    assert forall k :: 0 <= k < |d[1..]| ==> d[1..][k] == d[k + 1];
    assert entries[i][0] !in d[1..];
    AbsentByFirstChar(entries[i], d[1..]);
    AbsentAppend(entries[i], p, d);
    AbsentAppend(entries[i], p, e);
  }

  /** The entry loop on a rewritten name turns only its dot into `_`. */
  lemma EntriesOnRewritten(entries: seq<string>, p: string, newline: bool)
    requires ValidEntries(entries)
    requires forall i :: 0 <= i < |entries| ==> Absent(entries[i], p)
    ensures ReplaceEach(entries, p + DotExtension(newline)) == p + UnderscoreExtension(newline)
  {
    var u := p + DotExtension(newline);
    var y := p + UnderscoreExtension(newline);
    forall i | 0 <= i < |entries|
      ensures Absent(entries[i], y) && (Absent(entries[i], u) || ReplaceAll(u, entries[i], "_") == y)
      ensures entries[i] == "." ==> !Absent(entries[i], u)
    {
      if entries[i] == "." {
        DotEntryOnRewritten(p, newline);
      } else {
        OtherEntryOnRewritten(entries, i, p, newline);
      }
    }
    ReplaceEachRewritesOnce(entries, u, y);
  }

  /** Joining two strings without runs makes none unless both sides of the
      seam are underscores. */
  lemma NoDoubleAppend(a: string, b: string)
    requires NoDoubleUnderscore(a) && NoDoubleUnderscore(b)
    requires |a| == 0 || |b| == 0 || a[|a| - 1] != '_' || b[0] != '_'
    ensures NoDoubleUnderscore(a + b)
  {
    var s := a + b;
    forall i | 0 <= i < |s| - 1 ensures !(s[i] == '_' && s[i + 1] == '_') {
      if i + 1 < |a| {
        assert s[i] == a[i] && s[i + 1] == a[i + 1];
      } else if i >= |a| {
        assert s[i] == b[i - |a|] && s[i + 1] == b[i + 1 - |a|];
      } else {
        assert s[i] == a[|a| - 1] && s[i + 1] == b[0];
      }
    }
  }

  /** Trimming after one more underscore gives back a string that did not end
      in one. */
  lemma TrimAfterUnderscore(p: string)
    requires |p| == 0 || p[|p| - 1] != '_'
    ensures TrimUnderscores(p + "_") == p
  {
    assert (p + "_")[..|p|] == p;
  }

  /** Collapsing and the extension rewrite bring the dot back. */
  lemma ExtensionRestored(p: string, newline: bool)
    requires NoDoubleUnderscore(p) && (|p| == 0 || p[|p| - 1] != '_')
    ensures FixExtension(Collapse(p + UnderscoreExtension(newline))) == p + DotExtension(newline)
  {
    ExtensionShapes(newline);
    NoDoubleAppend(p, UnderscoreExtension(newline));
    CollapseIdentity(p + UnderscoreExtension(newline));
    TrimAfterUnderscore(p);
    if newline {
      FixExtensionNewline(p);
    } else {
      FixExtensionPlain(p);
    }
  }

  lemma FixExtensionPlain(p: string)
    requires TrimUnderscores(p + "_") == p
    ensures FixExtension(p + "_mp4") == p + ".mp4"
  {
    var y := p + "_mp4";
    assert y[|y| - 3..] == "mp4" && y[|y| - 4] == '_';
    assert y[..|y| - 3] == p + "_";
  }

  lemma FixExtensionNewline(p: string)
    requires TrimUnderscores(p + "_") == p
    ensures FixExtension(p + "_mp4\n") == p + ".mp4\n"
  {
    var y := p + "_mp4\n";
    assert y[|y| - 3..][2] == '\n';
    assert y[|y| - 4..] == "mp4\n" && y[|y| - 5] == '_';
    assert y[..|y| - 4] == p + "_";
  }

  /** The marker removal leaves a rewritten name alone. */
  lemma MarkerAbsentFromRewritten(p: string, newline: bool)
    requires NoDoubleUnderscore(p)
    ensures ReplaceAll(p + DotExtension(newline), DownloadsMarker, "") == p + DotExtension(newline)
  {
    ExtensionShapes(newline);
    NoDoubleAppend(p, DotExtension(newline));
    NoDoubleMarkerAbsent(p + DotExtension(newline));
    AbsentReplaceAllIdentity(p + DotExtension(newline), DownloadsMarker, "");
  }

  /** `Sanitized` from what each stage does to `u`. */
  lemma SanitizedByStages(entries: seq<string>, u: string, y: string)
    requires forall i :: 0 <= i < |entries| ==> |entries[i]| > 0
    requires ReplaceAll(u, DownloadsMarker, "") == u
    requires ReplaceEach(entries, u) == y
    requires FixExtension(Collapse(y)) == u
    ensures Sanitized(entries, u) == u
  {
  }

  /** When the extension rewrite has fired, sanitizing its result again gives
      it back. */
  lemma RewrittenIsStable(entries: seq<string>, p: string, newline: bool)
    requires ValidEntries(entries)
    requires NoDoubleUnderscore(p) && (|p| == 0 || p[|p| - 1] != '_')
    requires forall i :: 0 <= i < |entries| ==> Absent(entries[i], p)
    ensures Sanitized(entries, p + DotExtension(newline)) == p + DotExtension(newline)
  {
    MarkerAbsentFromRewritten(p, newline);
    EntriesOnRewritten(entries, p, newline);
    ExtensionRestored(p, newline);
    SanitizedByStages(entries, p + DotExtension(newline), p + UnderscoreExtension(newline));
  }

  /** Sanitizing twice gives the same name as sanitizing once. */
  lemma SanitizedIdempotent(entries: seq<string>, s: string)
    requires ValidEntries(entries)
    ensures Sanitized(entries, Sanitized(entries, s)) == Sanitized(entries, s)
  {
    var c := Collapsed(entries, s);
    CollapsedFacts(entries, s);
    if EndsUnderscoreMp4(c) || EndsUnderscoreMp4Newline(c) {
      var newline := !EndsUnderscoreMp4(c);
      var p := TrimUnderscores(c[..|c| - |DotExtension(newline)| + 1]);
      assert p == c[..|p|];
      forall i | 0 <= i < |entries| ensures Absent(entries[i], p) {
        AbsentPrefix(entries[i], c, |p|);
      }
      assert forall i :: 0 <= i < |p| ==> p[i] == c[i];
      RewrittenIsStable(entries, p, newline);
      assert Sanitized(entries, s) == p + DotExtension(newline);
    } else {
      NoDoubleMarkerAbsent(c);
      AbsentReplaceAllIdentity(c, DownloadsMarker, "");
      ReplaceEachIdentity(entries, c);
      CollapseIdentity(c);
    }
  }

  /** No listed string other than `.` survives, and a dot survives only as
      the dot of a final `.mp4` extension, which is there exactly when the
      collapsed name ended in `_mp4` (or `_mp4` and a newline). */
  lemma SanitizedRemovesEntries(entries: seq<string>, s: string)
    requires ValidEntries(entries)
    ensures var r := Sanitized(entries, s);
      && (forall i :: 0 <= i < |entries| && entries[i] != "." ==> Absent(entries[i], r))
      && (forall k :: 0 <= k < |r| && r[k] == '.' ==> r[k..] == ".mp4" || r[k..] == ".mp4\n")
      && ('.' in r <==> EndsUnderscoreMp4(Collapsed(entries, s)) || EndsUnderscoreMp4Newline(Collapsed(entries, s)))
  {
    CollapsedFacts(entries, s);
    FixExtensionRemovesEntries(entries, Collapsed(entries, s));
  }

  /** The extension rewrite of a collapsed string without listed entries
      brings back only the dot of `.mp4`. */
  lemma FixExtensionRemovesEntries(entries: seq<string>, c: string)
    requires ValidEntries(entries) && NoDoubleUnderscore(c)
    requires forall i :: 0 <= i < |entries| ==> Absent(entries[i], c)
    ensures var r := FixExtension(c);
      && (forall i :: 0 <= i < |entries| && entries[i] != "." ==> Absent(entries[i], r))
      && (forall k :: 0 <= k < |r| && r[k] == '.' ==> r[k..] == ".mp4" || r[k..] == ".mp4\n")
      && ('.' in r <==> EndsUnderscoreMp4(c) || EndsUnderscoreMp4Newline(c))
  {
    var r := FixExtension(c);
    var dot :| 0 <= dot < |entries| && entries[dot] == ".";
    AbsentCharIff('.', c);
    if EndsUnderscoreMp4(c) || EndsUnderscoreMp4Newline(c) {
      var newline := !EndsUnderscoreMp4(c);
      var p := TrimUnderscores(c[..|c| - |DotExtension(newline)| + 1]);
      if newline {
        assert r == TrimUnderscores(c[..|c| - 4]) + ".mp4\n";
      } else {
        assert r == TrimUnderscores(c[..|c| - 3]) + ".mp4";
      }
      assert p == c[..|p|];
      RewrittenRemovesEntries(entries, c, p, newline);
    } else {
      assert r == c;
    }
  }

  /** The rewritten name `p + .mp4`, for a prefix `p` of a collapsed string
      without listed entries, has no entry but `.` and only the one dot. */
  lemma RewrittenRemovesEntries(entries: seq<string>, c: string, p: string, newline: bool)
    requires ValidEntries(entries) && |p| <= |c| && p == c[..|p|]
    requires forall i :: 0 <= i < |entries| ==> Absent(entries[i], c)
    requires '.' !in c
    ensures var r := p + DotExtension(newline);
      && (forall i :: 0 <= i < |entries| && entries[i] != "." ==> Absent(entries[i], r))
      && (forall k :: 0 <= k < |r| && r[k] == '.' ==> r[k..] == ".mp4" || r[k..] == ".mp4\n")
      && '.' in r
  {
    var r := p + DotExtension(newline);
    assert forall k :: 0 <= k < |p| ==> p[k] == c[k] && c[k] != '.';
    forall i | 0 <= i < |entries| && entries[i] != "." ensures Absent(entries[i], r) {
      AbsentPrefix(entries[i], c, |p|);
      OtherEntryOnRewritten(entries, i, p, newline);
    }
    DotOnlyInExtension(p, newline);
  }

  /** A name without dots followed by `.mp4` has its only dot in the extension. */
  lemma DotOnlyInExtension(p: string, newline: bool)
    requires forall k :: 0 <= k < |p| ==> p[k] != '.'
    ensures var r := p + DotExtension(newline);
      && (forall k :: 0 <= k < |r| && r[k] == '.' ==> r[k..] == ".mp4" || r[k..] == ".mp4\n")
      && '.' in r
  {
    var r := p + DotExtension(newline);
    ExtensionShapes(newline);
    forall k | 0 <= k < |r| && r[k] == '.' ensures r[k..] == ".mp4" || r[k..] == ".mp4\n" {
      if k == |p| {
        assert r[k..] == DotExtension(newline);
      }
    }
    assert r[|p|] == '.';
  }

  // ------------------------------------------------- characters that stay

  lemma {:induction false} ReplaceAllKeepsChar(s: string, pat: string, rep: string, c: char)
    requires |pat| > 0 && c !in pat && c in s
    ensures c in ReplaceAll(s, pat, rep)
    decreases |s|
  {
    if |s| >= |pat| {
      if s[..|pat|] == pat {
        InAppend(c, s[..|pat|], s[|pat|..]);
        assert s[..|pat|] + s[|pat|..] == s;
        ReplaceAllKeepsChar(s[|pat|..], pat, rep, c);
        InAppend(c, rep, ReplaceAll(s[|pat|..], pat, rep));
      } else if s[0] != c {
        assert s == [s[0]] + s[1..];
        InAppend(c, [s[0]], s[1..]);
        ReplaceAllKeepsChar(s[1..], pat, rep, c);
        InAppend(c, [s[0]], ReplaceAll(s[1..], pat, rep));
      }
    }
  }

  lemma {:induction false} ReplaceEachKeepsChar(entries: seq<string>, s: string, c: char)
    requires forall i :: 0 <= i < |entries| ==> |entries[i]| > 0 && c !in entries[i]
    requires c in s
    ensures c in ReplaceEach(entries, s)
  {
    if |entries| > 0 {
      var init := entries[..|entries| - 1];
      ReplaceEachKeepsChar(init, s, c);
      ReplaceAllKeepsChar(ReplaceEach(init, s), entries[|entries| - 1], "_", c);
    }
  }

  lemma {:induction false} CollapseKeepsChar(s: string, c: char)
    requires c != '_' && c in s
    ensures c in Collapse(s)
    decreases |s|
  {
    assert s == [s[0]] + s[1..];
    InAppend(c, [s[0]], s[1..]);
    if |s| >= 2 && s[0] == '_' && s[1] == '_' {
      CollapseKeepsChar(s[1..], c);
    } else if s[0] != c {
      CollapseKeepsChar(s[1..], c);
      InAppend(c, [s[0]], Collapse(s[1..]));
    }
  }

  lemma FixExtensionKeepsChar(s: string, c: char)
    requires c !in ExtensionChars && c in s
    ensures c in FixExtension(s)
  {
    var k :| 0 <= k < |s| && s[k] == c;
    if EndsUnderscoreMp4(s) || EndsUnderscoreMp4Newline(s) {
      var cut := if EndsUnderscoreMp4(s) then 3 else 4;
      var p := TrimUnderscores(s[..|s| - cut]);
      assert k < |p| && p[k] == c;
      InAppend(c, p, if cut == 3 then ".mp4" else ".mp4\n");
    }
  }

  /** A character in no listed string, not in the marker and not among the
      extension characters is never removed. */
  lemma SanitizedKeepsChar(entries: seq<string>, s: string, c: char)
    requires forall i :: 0 <= i < |entries| ==> |entries[i]| > 0 && c !in entries[i]
    requires c !in DownloadsMarker && c !in ExtensionChars && c in s
    ensures c in Sanitized(entries, s)
  {
    ReplaceAllKeepsChar(s, DownloadsMarker, "", c);
    var removed := ReplaceAll(s, DownloadsMarker, "");
    ReplaceEachKeepsChar(entries, removed, c);
    assert ExtensionChars[0] == '_';
    CollapseKeepsChar(ReplaceEach(entries, removed), c);
    FixExtensionKeepsChar(Collapse(ReplaceEach(entries, removed)), c);
  }
}
