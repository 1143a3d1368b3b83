/** The per-file naming step of the video-to-audio batch script: which
    directory entries are converted, and the name of the `.mp3` written for
    each. The directory listing and the transcoder call are not modelled. */
module Conversion {
  import opened Wrappers
  import opened Text
  import opened Decimal
  import opened PosixPath

  // ---------------------------------------------------------------------
  // Which files are converted
  // ---------------------------------------------------------------------

  /** `file.lower().endswith(".mp4")`: the case-insensitive test accepts
      exactly the four spellings of the extension `.mp4`, `.Mp4`, `.mP4`,
      `.MP4`. */
  predicate IsVideoFile(file: string): (b: bool)
    ensures b <==> HasMp4Extension(file)
  {
    EndsWith(Lower(file), ".mp4")
  }

  /** The name ends in a dot, 'm' or 'M', 'p' or 'P', and the digit 4. */
  predicate HasMp4Extension(file: string) {
    var n := |file|;
    && n >= 4
    && file[n - 4] == '.'
    && (file[n - 3] == 'm' || file[n - 3] == 'M')
    && (file[n - 2] == 'p' || file[n - 2] == 'P')
    && file[n - 1] == '4'
  }


  // ---------------------------------------------------------------------
  // Tutorial number
  // ---------------------------------------------------------------------

  /** The longest suffix of `s` made of digits. */
  function TrailingDigits(s: string): (d: string)
    ensures |d| <= |s| && d == s[|s| - |d|..]
    ensures AllDigits(d)
    ensures |d| < |s| ==> !IsDigit(s[|s| - |d| - 1])
  {
    if |s| > 0 && IsDigit(s[|s| - 1]) then
      var d := TrailingDigits(s[..|s| - 1]) + [s[|s| - 1]];
      assert s[|s| - |d|..] == s[..|s| - 1][|s| - |d|..] + [s[|s| - 1]];
      d
    else []
  }

  /** The match of `re.search(r'(\d+)(?=\.mp4$)', file)` at position p: a
      non-empty run of digits from p up to a final, lower-case ".mp4". The
      look-ahead pins the end of the run, so the start decides the match. */
  predicate MatchesAt(file: string, p: nat) {
    && EndsWith(file, ".mp4")
    && p < |file| - 4
    && AllDigits(file[p..|file| - 4])
  }

  /** `match.group(1) if match else "unknown"` */
  function TutorialNumber(file: string): (n: string)
    ensures n == "unknown" || (|n| > 0 && AllDigits(n))
  {
    if EndsWith(file, ".mp4") then
      var d := TrailingDigits(file[..|file| - 4]);
      if |d| > 0 then d else "unknown"
    else "unknown"
  }

  /** The tutorial number is the group of the leftmost match of the regular
      expression, and "unknown" exactly when there is no match (which
      includes every name ending in an upper-case ".MP4"). */
  lemma TutorialNumberIsLeftmostMatch(file: string)
    ensures TutorialNumber(file) == "unknown" <==> forall p: nat :: !MatchesAt(file, p)
    ensures TutorialNumber(file) != "unknown" ==>
      exists p: nat :: MatchesAt(file, p) && TutorialNumber(file) == file[p..|file| - 4]
        && forall q: nat :: q < p ==> !MatchesAt(file, q)
  {
    assert !AllDigits("unknown") by { assert !IsDigit("unknown"[0]); }
    if EndsWith(file, ".mp4") {
      var e := |file| - 4;
      var s := file[..e];
      var d := TrailingDigits(s);
      var p := e - |d|;
      assert d == file[p..e];
      forall q: nat | q < p ensures !MatchesAt(file, q) {
        assert file[q..e][p - 1 - q] == s[p - 1];
      }
      if |d| > 0 {
        assert MatchesAt(file, p);
      } else {
        forall q: nat ensures !MatchesAt(file, q) {
          if q < e { assert file[q..e][e - 1 - q] == s[e - 1]; }
        }
      }
    }
  }

  // ---------------------------------------------------------------------
  // Sanitising the file name
  // ---------------------------------------------------------------------

  /** The nine characters the script deletes from names: backslash,
      slash, asterisk, question mark, colon, double quote, less-than,
      greater-than and vertical bar. */
  predicate IsForbidden(c: char) {
    c == '\\' || c == '/' || c == '*' || c == '?' || c == ':' || c == '\"' || c == '<' || c == '>' || c == '|'
  }

  /** The regular-expression substitution that deletes every forbidden
      character. */
  function RemoveForbidden(s: string): (r: string)
    ensures |r| <= |s|
    ensures forall i :: 0 <= i < |r| ==> !IsForbidden(r[i])
    ensures forall c :: !IsForbidden(c) ==> multiset(r)[c] == multiset(s)[c]
  {
    if |s| == 0 then []
    else
      assert s == [s[0]] + s[1..];
      if IsForbidden(s[0]) then RemoveForbidden(s[1..])
      else [s[0]] + RemoveForbidden(s[1..])
  }

  /** Number of leading whitespace characters. */
  function LeadingSpace(s: string): (i: nat)
    ensures i <= |s|
    ensures forall k :: 0 <= k < i ==> IsSpace(s[k])
    ensures i < |s| ==> !IsSpace(s[i])
  {
    if |s| == 0 || !IsSpace(s[0]) then 0 else 1 + LeadingSpace(s[1..])
  }

  /** Length of `s` without its trailing whitespace. */
  function TrailingSpaceStart(s: string): (j: nat)
    ensures j <= |s|
    ensures forall k :: j <= k < |s| ==> IsSpace(s[k])
    ensures j > 0 ==> !IsSpace(s[j - 1])
  {
    if |s| == 0 || !IsSpace(s[|s| - 1]) then |s| else TrailingSpaceStart(s[..|s| - 1])
  }

  /** Where `s.strip()` cuts: every character before the first bound and
      from the second bound on is whitespace, and the slice between them,
      when non-empty, starts and ends with a non-whitespace character. */
  function StripBounds(s: string): (b: (nat, nat))
    ensures b.0 <= b.1 <= |s|
    ensures forall k :: 0 <= k < b.0 ==> IsSpace(s[k])
    ensures forall k :: b.1 <= k < |s| ==> IsSpace(s[k])
    ensures b.0 < b.1 ==> !IsSpace(s[b.0]) && !IsSpace(s[b.1 - 1])
  {
    var i := LeadingSpace(s);
    if i == |s| then (i, i) else (i, TrailingSpaceStart(s))
  }

  /** `r` is the block of `s` starting at `i`, with only whitespace before
      and after it: interior characters, whitespace included, are kept. */
  predicate TrimmedAt(r: string, s: string, i: nat) {
    && i + |r| <= |s|
    && r == s[i..i + |r|]
    && (forall k :: 0 <= k < i ==> IsSpace(s[k]))
    && (forall k :: i + |r| <= k < |s| ==> IsSpace(s[k]))
  }

  /** `s.strip()`: the contiguous block left after cutting the leading
      whitespace, with no whitespace at either end; only whitespace was
      removed. */
  function Strip(s: string): (r: string)
    ensures TrimmedAt(r, s, LeadingSpace(s))
    ensures |r| > 0 ==> !IsSpace(r[0]) && !IsSpace(r[|r| - 1])
    ensures forall c :: !IsSpace(c) ==> multiset(r)[c] == multiset(s)[c]
  {
    var b := StripBounds(s);
    forall c | !IsSpace(c) ensures multiset(s[b.0..b.1])[c] == multiset(s)[c] {
      StripKeepsNonSpace(s, c);
    }
    var r := s[b.0..b.1];
    assert r == s[b.0..b.0 + |r|];
    r
  }

  /** The script's sanitiser: forbidden characters deleted, then the
      surrounding whitespace stripped. */
  function Sanitize(name: string): (r: string)
    ensures forall i :: 0 <= i < |r| ==> !IsForbidden(r[i])
    ensures |r| > 0 ==> !IsSpace(r[0]) && !IsSpace(r[|r| - 1])
    ensures forall c :: !IsForbidden(c) && !IsSpace(c) ==> multiset(r)[c] == multiset(name)[c]
    ensures TrimmedAt(r, RemoveForbidden(name), LeadingSpace(RemoveForbidden(name)))
  {
    var t := RemoveForbidden(name);
    StripKeepsClean(t);
    Strip(t)
  }

  /** Cutting at the strip bounds removes only whitespace, so every other
      character keeps its count. */
  lemma StripKeepsNonSpace(s: string, c: char)
    requires !IsSpace(c)
    ensures var b := StripBounds(s); multiset(s[b.0..b.1])[c] == multiset(s)[c]
  {
    var b := StripBounds(s);
    assert s == s[..b.0] + s[b.0..b.1] + s[b.1..];
    assert c !in s[..b.0] && c !in s[b.1..];
  }

  /** Stripping a name free of forbidden characters leaves it free of them,
      with no whitespace at either end. */
  lemma StripKeepsClean(t: string)
    requires forall i :: 0 <= i < |t| ==> !IsForbidden(t[i])
    ensures var r := Strip(t);
      && (forall i :: 0 <= i < |r| ==> !IsForbidden(r[i]))
      && (|r| > 0 ==> !IsSpace(r[0]) && !IsSpace(r[|r| - 1]))
  {
  }

  /** `a` is obtained from `b` by deleting characters. */
  predicate IsSubsequence(a: string, b: string)
    decreases |b|
  {
    |a| == 0 || (|b| > 0 && ((a[0] == b[0] && IsSubsequence(a[1..], b[1..])) || IsSubsequence(a, b[1..])))
  }

  /** Deleting from a deletion is a deletion. */
  lemma {:induction false} SubsequenceTransitive(a: string, b: string, c: string)
    requires IsSubsequence(a, b) && IsSubsequence(b, c)
    ensures IsSubsequence(a, c)
    decreases |c|
  {
    if |a| > 0 {
      if IsSubsequence(b, c[1..]) {
        SubsequenceTransitive(a, b, c[1..]);
      } else if a[0] == b[0] && IsSubsequence(a[1..], b[1..]) {
        SubsequenceTransitive(a[1..], b[1..], c[1..]);
      } else {
        SubsequenceTransitive(a, b[1..], c[1..]);
      }
    }
  }

  /** Every slice of a string is a subsequence of it. */
  lemma {:induction false} SliceIsSubsequence(s: string, i: nat, j: nat)
    requires i <= j <= |s|
    ensures IsSubsequence(s[i..j], s)
    decreases |s|
  {
    if i < j {
      if i == 0 {
        SliceIsSubsequence(s[1..], 0, j - 1);
        assert s[i..j][1..] == s[1..][0..j - 1];
      } else {
        SliceIsSubsequence(s[1..], i - 1, j - 1);
        assert s[i..j] == s[1..][i - 1..j - 1];
      }
    }
  }

  /** The substitution only deletes characters. */
  lemma {:induction false} RemoveForbiddenIsSubsequence(s: string)
    ensures IsSubsequence(RemoveForbidden(s), s)
    decreases |s|
  {
    if |s| > 0 {
      RemoveForbiddenIsSubsequence(s[1..]);
      if !IsForbidden(s[0]) {
        assert RemoveForbidden(s)[1..] == RemoveForbidden(s[1..]);
      }
    }
  }

  /** Sanitising only deletes characters. */
  lemma SanitizeIsSubsequence(name: string)
    ensures IsSubsequence(Sanitize(name), name)
  {
    var t := RemoveForbidden(name);
    var b := StripBounds(t);
    SliceIsSubsequence(t, b.0, b.1);
    RemoveForbiddenIsSubsequence(name);
    SubsequenceTransitive(Sanitize(name), t, name);
  }

  /** A name with no forbidden character is left as it is. */
  lemma {:induction false} RemoveForbiddenKeepsClean(s: string)
    requires forall i :: 0 <= i < |s| ==> !IsForbidden(s[i])
    ensures RemoveForbidden(s) == s
    decreases |s|
  {
    if |s| > 0 {
      RemoveForbiddenKeepsClean(s[1..]);
    }
  }

  /** A string with no whitespace at either end is its own `strip()`. */
  lemma StripKeepsTrimmed(s: string)
    requires |s| > 0 ==> !IsSpace(s[0]) && !IsSpace(s[|s| - 1])
    ensures Strip(s) == s
  {
  }

  /** Sanitising an already sanitised name changes nothing. */
  lemma SanitizeIdempotent(name: string)
    ensures Sanitize(Sanitize(name)) == Sanitize(name)
  {
    var r := Sanitize(name);
    RemoveForbiddenKeepsClean(r);
    StripKeepsTrimmed(r);
  }

  // ---------------------------------------------------------------------
  // The output name
  // ---------------------------------------------------------------------

  /** `os.path.splitext(file)[0]`: a prefix of the name, cut either
      nowhere or just before a dot. */
  function Stem(file: string): (r: string)
    ensures |r| <= |file| && r == file[..|r|]
    ensures |r| < |file| ==> file[|r|] == '.'
  {
    var parts := SplitExt(file);
    assert file == parts.0 + parts.1;
    parts.0
  }

  /** For a video file name (no '/', as a directory listing gives), the stem
      is the name without its last four characters, except when everything
      before the extension is dots (".mp4", "..mp4"): then the name has no
      extension and the stem is the whole name. */
  lemma VideoStem(file: string)
    requires HasMp4Extension(file) && '/' !in file
    ensures !AllDots(file[..|file| - 4]) ==> Stem(file) == file[..|file| - 4]
    ensures AllDots(file[..|file| - 4]) ==> Stem(file) == file
  {
    var e := |file| - 4;
    assert RFind(file, '/') == -1;
    assert file[e] == '.' && RFind(file, '.') == e;
    assert file[-1 + 1..e] == file[..e];
  }

  /** The name of the `.mp3` written for `file`, or `None` when the script
      skips the file. */
  function OutputName(file: string): (r: Option<string>)
    ensures r.Some? <==> HasMp4Extension(file)
    ensures r.Some? ==> EndsWith(r.value, ".mp3") && '/' !in r.value
  {
    if !IsVideoFile(file) then None
    else
      var n := TutorialNumber(file);
      var safe := Sanitize(Stem(file));
      NumberHasNoSeparator(n);
      AssembledName(n, safe);
      Some(n + "_" + safe + ".mp3")
  }

  /** Neither a digit string nor "unknown" holds a '/' or a '_'. */
  lemma NumberHasNoSeparator(n: string)
    requires n == "unknown" || AllDigits(n)
    ensures '/' !in n && '_' !in n
  {
  }

  /** The assembled name ends in ".mp3" and holds no '/'. */
  lemma AssembledName(n: string, safe: string)
    requires '/' !in n
    requires forall i :: 0 <= i < |safe| ==> !IsForbidden(safe[i])
    ensures EndsWith(n + "_" + safe + ".mp3", ".mp3")
    ensures '/' !in n + "_" + safe + ".mp3"
  {
  }

  /** Splits an output name at its first '_' into the tutorial number and
      the sanitised name, dropping the ".mp3". */
  function SplitOutputName(out: string): (r: Option<(string, string)>)
    ensures r.Some? ==> r.value.0 + "_" + r.value.1 + ".mp3" == out
  {
    match IndexOf(out, '_')
    case None => None
    case Some(i) =>
      var rest := out[i + 1..];
      if EndsWith(rest, ".mp3") then
        assert out == out[..i] + "_" + rest[..|rest| - 4] + ".mp3";
        Some((out[..i], rest[..|rest| - 4]))
      else None
  }

  /** An output name is exactly the tutorial number, an underscore, the
      sanitised stem and ".mp3": splitting it recovers both parts. */
  lemma OutputNameRoundTrip(file: string)
    requires HasMp4Extension(file)
    ensures SplitOutputName(OutputName(file).value) == Some((TutorialNumber(file), Sanitize(Stem(file))))
  {
    var n, safe := TutorialNumber(file), Sanitize(Stem(file));
    assert OutputName(file).value == n + "_" + safe + ".mp3";
    NumberHasNoSeparator(n);
    SplitAssembled(n, safe);
  }

  /** Splitting at the first '_' undoes the assembly when the number has no '_'. */
  lemma SplitAssembled(n: string, safe: string)
    requires '_' !in n
    ensures SplitOutputName(n + "_" + safe + ".mp3") == Some((n, safe))
  {
    var out := n + "_" + safe + ".mp3";
    assert out == n + ['_'] + (safe + ".mp3");
    IndexOfAfter(n, '_', safe + ".mp3");
    assert out[..|n|] == n;
    assert out[|n| + 1..] == safe + ".mp3";
  }
}
