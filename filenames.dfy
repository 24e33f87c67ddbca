/** File names: POSIX `os.path.splitext` and the upload sanitiser built on it
    (app/api/v1/endpoints/audio.py, `sanitize_filename`). */
module Filenames {

  /** Index of the last occurrence of `c` in `s`, or -1 (`str.rfind`). */
  function LastIndexOf(s: string, c: char): (i: int)
    ensures -1 <= i < |s|
    ensures i >= 0 ==> s[i] == c
    ensures forall j :: i < j < |s| ==> s[j] != c
  {
    if s == [] then -1
    else if s[|s| - 1] == c then |s| - 1
    else LastIndexOf(s[..|s| - 1], c)
  }

  /** The contract of `LastIndexOf` determines it: an index holding `c` with no `c` after it
      (or -1 with no `c` at all) is the last index. */
  lemma LastIndexOfUnique(s: string, c: char, i: int)
    requires -1 <= i < |s|
    requires i >= 0 ==> s[i] == c
    requires forall j :: i < j < |s| ==> s[j] != c
    ensures LastIndexOf(s, c) == i
  {
  }

  predicate HasNonDot(s: string) {
    exists i :: 0 <= i < |s| && s[i] != '.'
  }

  /** `os.path.splitext` on POSIX: the extension starts at the last dot, provided that dot
      lies after the last slash and some non-dot character precedes it within the final
      path component (so ".bashrc" and "a/..x" have no extension). */
  function SplitExt(p: string): (r: (string, string))
    ensures r.0 + r.1 == p
    ensures r.1 != [] ==> ExtensionShape(r.0, r.1)
  {
    var sepIndex := LastIndexOf(p, '/');
    var dotIndex := LastIndexOf(p, '.');
    if dotIndex > sepIndex && HasNonDot(p[sepIndex + 1..dotIndex]) then
      ExtensionAfterLastDot(p, sepIndex, dotIndex);
      (p[..dotIndex], p[dotIndex..])
    else
      (p, "")
  }

  /** The leading-dot rule: when `SplitExt` finds an extension, some non-dot character
      precedes it within the final path component of the base (so "a/.bashrc" has none). */
  lemma SplitExtLeadingDot(p: string)
    ensures var r := SplitExt(p); r.1 != [] ==> HasNonDot(r.0[LastIndexOf(r.0, '/') + 1..])
  {
    var sepIndex := LastIndexOf(p, '/');
    var dotIndex := LastIndexOf(p, '.');
    if dotIndex > sepIndex && HasNonDot(p[sepIndex + 1..dotIndex]) {
      LastIndexOfUnique(p[..dotIndex], '/', sepIndex);
      assert p[..dotIndex][sepIndex + 1..] == p[sepIndex + 1..dotIndex];
    }
  }

  /** What an extension found by `SplitExt` looks like: a leading dot, no other dot, no slash,
      and a non-empty base in front of it. */
  predicate ExtensionShape(base: string, ext: string) {
    && base != []
    && ext != [] && ext[0] == '.'
    && (forall i :: 1 <= i < |ext| ==> ext[i] != '.')
    && (forall i :: 0 <= i < |ext| ==> ext[i] != '/')
  }

  lemma ExtensionAfterLastDot(p: string, sepIndex: int, dotIndex: int)
    requires -1 <= sepIndex < dotIndex < |p|
    requires p[dotIndex] == '.'
    requires forall j :: dotIndex < j < |p| ==> p[j] != '.'
    requires forall j :: sepIndex < j < |p| ==> p[j] != '/'
    requires HasNonDot(p[sepIndex + 1..dotIndex])
    ensures ExtensionShape(p[..dotIndex], p[dotIndex..])
  {
    var ext := p[dotIndex..];
    forall i | 0 <= i < |ext| ensures ext[i] == p[dotIndex + i] && (i >= 1 ==> ext[i] != '.') && ext[i] != '/' {
    }
  }

  /** `str.isalnum` on one character, restricted to ASCII letters and digits. */
  predicate IsAlnum(c: char) {
    'a' <= c <= 'z' || 'A' <= c <= 'Z' || '0' <= c <= '9'
  }

  /** A character the sanitiser keeps as it is. */
  predicate IsSafe(c: char) {
    IsAlnum(c) || c == '-' || c == '_'
  }

  function SafeChar(c: char): (d: char)
    ensures IsSafe(d)
    ensures IsSafe(c) ==> d == c
    ensures !IsSafe(c) ==> d == '_'
  {
    if IsSafe(c) then c else '_'
  }

  const MaxBaseLength: nat := 100

  /** `sanitize_filename`: every character of the base outside [A-Za-z0-9_-] becomes an
      underscore, the base is cut to 100 characters and the extension is put back as it was. */
  function SanitizeFilename(filename: string): (r: string)
    ensures var base := SplitExt(filename).0;
      var n := if |base| < MaxBaseLength then |base| else MaxBaseLength;
      && |r| == n + |SplitExt(filename).1|
      && (forall i :: 0 <= i < n ==> r[i] == SafeChar(base[i]))
      && r[n..] == SplitExt(filename).1
  {
    var parts := SplitExt(filename);
    var base := parts.0;
    var n := if |base| < MaxBaseLength then |base| else MaxBaseLength;
    var safeBase := seq(n, i requires 0 <= i < n => SafeChar(base[i]));
    var joined := safeBase + parts.1;
    assert joined[n..] == parts.1;
    joined
  }

  /** A sanitised name has no slash: the base's slashes become underscores and an extension
      never holds one. */
  lemma SanitizedHasNoSlash(filename: string)
    ensures var r := SanitizeFilename(filename); forall i :: 0 <= i < |r| ==> r[i] != '/'
  {
    var r := SanitizeFilename(filename);
    var (base, ext) := SplitExt(filename);
    var n := if |base| < MaxBaseLength then |base| else MaxBaseLength;
    forall i | 0 <= i < |r| ensures r[i] != '/' {
      if i >= n {
        assert r[i] == r[n..][i - n] == ext[i - n];
      }
    }
  }

  /** A string made only of safe characters has no dot and no slash, so it has no extension. */
  lemma SplitExtOfSafe(s: string)
    requires forall i :: 0 <= i < |s| ==> IsSafe(s[i])
    ensures SplitExt(s) == (s, "")
  {
    assert LastIndexOf(s, '.') == -1;
  }

  /** Any base whose final path component holds a non-dot character, followed by an
      extension, splits back into exactly those parts: an extension that is there is found. */
  lemma SplitExtOfBaseAndExt(b: string, ext: string)
    requires HasNonDot(b[LastIndexOf(b, '/') + 1..])
    requires ext != [] && ext[0] == '.'
    requires forall i :: 1 <= i < |ext| ==> ext[i] != '.'
    requires forall i :: 0 <= i < |ext| ==> ext[i] != '/'
    ensures SplitExt(b + ext) == (b, ext)
  {
    var p := b + ext;
    var sb := LastIndexOf(b, '/');
    forall j | 0 <= j < |p| ensures j < |b| ==> p[j] == b[j]
      ensures j >= |b| ==> p[j] != '/' && (j > |b| ==> p[j] != '.')
    {
      if j >= |b| {
        assert p[j] == ext[j - |b|];
      }
    }
    LastIndexOfUnique(p, '/', sb);
    LastIndexOfUnique(p, '.', |b|);
    assert p[sb + 1..|b|] == b[sb + 1..];
    assert p[..|b|] == b && p[|b|..] == ext;
  }

  /** A non-empty base without dots or slashes, followed by an extension, splits back into
      exactly those parts. */
  lemma SplitExtOfNameAndExt(s: string, ext: string)
    requires s != [] && forall i :: 0 <= i < |s| ==> s[i] != '.' && s[i] != '/'
    requires ext != [] && ext[0] == '.'
    requires forall i :: 1 <= i < |ext| ==> ext[i] != '.'
    requires forall i :: 0 <= i < |ext| ==> ext[i] != '/'
    ensures SplitExt(s + ext) == (s, ext)
  {
    LastIndexOfUnique(s, '/', -1);
    assert s[0..] == s && s[0] != '.';
    SplitExtOfBaseAndExt(s, ext);
  }

  /** In a name followed by an extension, the dot opening the extension is the only one
      from then on, and there is no slash. */
  lemma OneDotNoSlash(s: string, ext: string)
    requires forall i :: 0 <= i < |s| ==> s[i] != '/'
    requires ext != [] && ext[0] == '.'
    requires forall i :: 1 <= i < |ext| ==> ext[i] != '.'
    requires forall i :: 0 <= i < |ext| ==> ext[i] != '/'
    ensures (s + ext)[|s|] == '.'
    ensures forall j :: 0 <= j < |s + ext| ==> (s + ext)[j] != '/'
    ensures forall j :: |s| < j < |s + ext| ==> (s + ext)[j] != '.'
  {
    var p := s + ext;
    forall j | 0 <= j < |p| ensures p[j] != '/' && (j > |s| ==> p[j] != '.') {
      if j < |s| { assert p[j] == s[j]; } else { assert p[j] == ext[j - |s|]; }
    }
    assert p[|s|] == ext[0];
  }

  /** A sanitised name is a safe base of at most 100 characters followed by the original
      extension, and it splits into exactly those two parts. */
  lemma SanitizedSplits(filename: string)
    ensures var r := SanitizeFilename(filename);
      var ext := SplitExt(filename).1;
      && |ext| <= |r| <= MaxBaseLength + |ext|
      && r == r[..|r| - |ext|] + ext
      && (forall i :: 0 <= i < |r| - |ext| ==> IsSafe(r[i]))
      && SplitExt(r) == (r[..|r| - |ext|], ext)
      && (ext != [] ==> |ext| < |r|)
  {
    var r := SanitizeFilename(filename);
    var (base, ext) := SplitExt(filename);
    var n := if |base| < MaxBaseLength then |base| else MaxBaseLength;
    var safe := r[..n];
    assert r == safe + ext;
    assert forall i :: 0 <= i < |safe| ==> IsSafe(safe[i]) by {
      forall i | 0 <= i < |safe| ensures IsSafe(safe[i]) {
        assert safe[i] == SafeChar(base[i]);
      }
    }
    if ext == [] {
      SplitExtOfSafe(safe);
      assert r == safe;
    } else {
      SplitExtOfNameAndExt(safe, ext);
    }
  }

  /** Sanitising a sanitised name changes nothing. */
  lemma SanitizeIdempotent(filename: string)
    ensures SanitizeFilename(SanitizeFilename(filename)) == SanitizeFilename(filename)
  {
    SanitizedSplits(filename);
    var r := SanitizeFilename(filename);
    var ext := SplitExt(filename).1;
    var safe := r[..|r| - |ext|];
    assert r == safe + ext;
    if ext == [] {
      SanitizeKeepsSafeBase(safe);
    } else {
      assert 0 < |safe| <= MaxBaseLength;
      SanitizeKeepsSafeName(safe, ext);
    }
  }

  /** Sanitisation keeps the extension and never lets the base exceed 100 characters. */
  lemma SanitizeKeepsExtension(filename: string)
    ensures var r := SanitizeFilename(filename);
      var ext := SplitExt(filename).1;
      && |ext| <= |r| <= MaxBaseLength + |ext|
      && r[|r| - |ext|..] == ext
      && SplitExt(r).1 == ext
  {
    SanitizedSplits(filename);
  }

  /** A name of at most 100 safe characters, with no extension, is left as it is. */
  lemma SanitizeKeepsSafeBase(base: string)
    requires |base| <= MaxBaseLength && forall i :: 0 <= i < |base| ==> IsSafe(base[i])
    ensures SanitizeFilename(base) == base
  {
    SplitExtOfSafe(base);
    var r := SanitizeFilename(base);
    assert |r| == |base|;
    forall i | 0 <= i < |base| ensures r[i] == base[i] {
      assert r[i] == SafeChar(base[i]);
    }
  }

  /** A name that is already safe, with an extension, is left as it is. */
  lemma SanitizeKeepsSafeName(base: string, ext: string)
    requires 0 < |base| <= MaxBaseLength && forall i :: 0 <= i < |base| ==> IsSafe(base[i])
    requires ext != [] && ext[0] == '.'
    requires forall i :: 1 <= i < |ext| ==> ext[i] != '.'
    requires forall i :: 0 <= i < |ext| ==> ext[i] != '/'
    ensures SplitExt(base + ext) == (base, ext)
    ensures SanitizeFilename(base + ext) == base + ext
  {
    SplitExtOfNameAndExt(base, ext);
    assert SplitExt(base + ext).0 == base;
    var r := SanitizeFilename(base + ext);
    var want := base + ext;
    forall i | 0 <= i < |want| ensures r[i] == want[i] {
      if i >= |base| {
        assert r[i] == r[|base|..][i - |base|];
      }
    }
  }
}
