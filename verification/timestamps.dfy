/** Timestamps and deep links of the assistant's answer page: the static
    video table, `format_timestamp` and `generate_youtube_timestamp_link`. */
module Timestamps {
  import opened Wrappers
  import opened Decimal
  import opened Text

  /** The course's video table: key `str(number)` to the video's short URL. */
  const YouTubeVideos: map<string, string> := map[
    "1" := "https://youtu.be/yH1zCq-iaeU",
    "2" := "https://youtu.be/HmH-76_2Ak8",
    "3" := "https://youtu.be/v-2cIUgx_jw",
    "4" := "https://youtu.be/4YAAgrm8_ZI",
    "5" := "https://youtu.be/eiLqDeDp7Oc",
    "6" := "https://youtu.be/rfWYbMd3ApA",
    "7" := "https://youtu.be/55_UN5gVARs",
    "8" := "https://youtu.be/9NfthspfXEo",
    "9" := "https://youtu.be/SvJLXj05cow",
    "10" := "https://youtu.be/kwGh6XvLrEk",
    "11" := "https://youtu.be/H6988OpZKTU"
  ]

  /** Python's `int(x)` on a float: truncation toward zero. */
  function Truncate(x: real): (t: int)
    ensures 0.0 <= x ==> 0 <= t && t as real <= x < t as real + 1.0
    ensures x < 0.0 ==> t <= 0 && x <= t as real < x + 1.0
  {
    if x >= 0.0 then x.Floor else -((-x).Floor)
  }

  /** The `{n:02d}` format: decimal, zero-padded after the sign to width 2. */
  function Pad2(n: int): (s: string)
    ensures n >= 0 ==> |s| >= 2 && AllDigits(s) && DigitsValue(s) == n
    ensures 0 <= n < 100 ==> |s| == 2
    ensures n >= 10 ==> s[0] != '0'
    ensures n < 0 ==> |s| >= 2 && s[0] == '-' && AllDigits(s[1..]) && DigitsValue(s[1..]) == -n
    ensures n < 0 && |s| > 2 ==> s[1] != '0'
    ensures ':' !in s
  {
    if n < 0 then IntToDecimal(n)
    else if n < 10 then
      var s := "0" + NatToDecimal(n);
      assert s[..|s| - 1] == "0" && DigitsValue("0") == 0 by {
        assert DigitsValue("0") == DigitsValue("0"[..0]) * 10 + DigitValue('0');
      }
      s
    else
      assert n < 100 ==> NatToDecimal(n) == NatToDecimal(n / 10) + [DigitChar(n % 10)];
      NatToDecimal(n)
  }

  /** `seconds // 60` and `seconds % 60` of a float, each passed through
      `int()`: the minutes and the seconds within the minute. */
  function TimestampFields(seconds: real): (f: (int, int))
    ensures 0 <= f.1 < 60
    ensures f.0 * 60 + f.1 == seconds.Floor
    ensures f.0 == seconds.Floor / 60 && f.1 == seconds.Floor % 60
  {
    var minutes := (seconds / 60.0).Floor;
    var secs := (seconds - 60.0 * minutes as real).Floor;
    FieldsOfFloor(seconds, minutes, secs);
    (minutes, secs)
  }

  /** Flooring `x / 60` and the remainder gives the floor division and remainder of `floor(x)` by 60. */
  lemma FieldsOfFloor(x: real, minutes: int, secs: int)
    requires minutes == (x / 60.0).Floor
    requires secs == (x - 60.0 * minutes as real).Floor
    ensures 0 <= secs < 60 && minutes * 60 + secs == x.Floor
    ensures minutes == x.Floor / 60 && secs == x.Floor % 60
  {
  }

  /** `format_timestamp(seconds)`: minutes and seconds, colon-separated,
      each at least two digits wide. */
  function FormatTimestamp(seconds: real): (r: string)
    ensures r == Pad2(seconds.Floor / 60) + ":" + Pad2(seconds.Floor % 60)
  {
    var f := TimestampFields(seconds);
    Pad2(f.0) + ":" + Pad2(f.1)
  }

  /** Reads a timestamp `MM:SS` back into whole seconds: the minutes may be
      signed and of any width, the seconds are exactly two digits below 60. */
  function ParseTimestamp(s: string): (r: Option<int>)
    ensures r.Some? ==> ':' in s
  {
    match IndexOf(s, ':')
    case None => None
    case Some(i) =>
      var secs := s[i + 1..];
      match ParseInt(s[..i])
      case Some(m) =>
        if |secs| == 2 && AllDigits(secs) && DigitsValue(secs) < 60
        then Some(m * 60 + DigitsValue(secs))
        else None
      case None => None
  }

  /** The seconds field is always two digits, and the text holds exactly
      the whole seconds it was made from. */
  lemma FormatTimestampShape(seconds: real)
    requires seconds >= 0.0
    ensures var r := FormatTimestamp(seconds);
      && |r| >= 5 && r[|r| - 3] == ':'
      && AllDigits(r[..|r| - 3]) && AllDigits(r[|r| - 2..])
      && DigitsValue(r[..|r| - 3]) * 60 + DigitsValue(r[|r| - 2..]) == seconds.Floor
  {
    var f := seconds.Floor;
    var m, sec := Pad2(f / 60), Pad2(f % 60);
    var r := FormatTimestamp(seconds);
    assert r == m + ":" + sec;
    assert r[..|r| - 3] == m;
    assert r[|r| - 2..] == sec;
  }

  /** Parsing what `format_timestamp` wrote gives back the whole seconds. */
  lemma FormatTimestampRoundTrip(seconds: real)
    ensures ParseTimestamp(FormatTimestamp(seconds)) == Some(seconds.Floor)
  {
    var f := seconds.Floor;
    var m, sec := f / 60, f % 60;
    assert m * 60 + sec == f;
    assert FormatTimestamp(seconds) == Pad2(m) + ":" + Pad2(sec);
    ParseFields(m, sec);
  }

  /** The two padded fields, colon-separated, read back as their total. */
  lemma ParseFields(minutes: int, secs: int)
    requires 0 <= secs < 60
    ensures ParseTimestamp(Pad2(minutes) + ":" + Pad2(secs)) == Some(minutes * 60 + secs)
  {
    var sec := Pad2(secs);
    assert |sec| == 2 && AllDigits(sec) && DigitsValue(sec) == secs;
    Pad2Parses(minutes);
    ParseJoined(Pad2(minutes), sec, minutes, secs);
  }

  /** A colon-free minutes text, a colon and two digits read back as their total in seconds. */
  lemma ParseJoined(m: string, sec: string, minutes: int, secs: nat)
    requires ':' !in m && ParseInt(m) == Some(minutes)
    requires |sec| == 2 && AllDigits(sec) && DigitsValue(sec) == secs < 60
    ensures ParseTimestamp(m + ":" + sec) == Some(minutes * 60 + secs)
  {
    var r := m + ":" + sec;
    IndexOfAfter(m, ':', sec);
    assert r[..|m|] == m;
    assert r[|m| + 1..] == sec;
  }

  /** The padded minutes read back as the minutes. */
  lemma Pad2Parses(n: int)
    ensures ParseInt(Pad2(n)) == Some(n)
  {
  }

  /** `generate_youtube_timestamp_link` once the video number has been
      turned into its key: the video's URL with a `t` query parameter
      holding the truncated start second, or `None` for an unknown video. */
  function LinkForKey(key: string, startSeconds: real): (r: Option<string>)
    ensures r.None? <==> key !in YouTubeVideos
    ensures r.Some? ==> StartsWith(r.value, YouTubeVideos[key]) && EndsWith(r.value, "s")
  {
    if key !in YouTubeVideos then None
    else
      var link := YouTubeVideos[key] + "?t=" + IntToDecimal(Truncate(startSeconds)) + "s";
      assert link[..|YouTubeVideos[key]|] == YouTubeVideos[key];
      Some(link)
  }

  /** `generate_youtube_timestamp_link(video_number, start_seconds)` for an
      integer video number, looked up as `str(video_number)`. */
  function TimestampLink(videoNumber: int, startSeconds: real): (r: Option<string>)
    ensures r.Some? <==> 1 <= videoNumber <= 11
    ensures r.Some? ==> EndsWith(r.value, "s")
  {
    KnownVideoNumbers(videoNumber);
    LinkForKey(IntToDecimal(videoNumber), startSeconds)
  }

  /** Exactly the numbers 1 to 11 have a video. */
  lemma KnownVideoNumbers(n: int)
    ensures IntToDecimal(n) in YouTubeVideos <==> 1 <= n <= 11
  {
    if IntToDecimal(n) in YouTubeVideos {
      KeysAreSmallNumbers(IntToDecimal(n));
    }
    if 1 <= n <= 11 {
      if n < 10 {
        assert IntToDecimal(n) == [DigitChar(n)];
        SmallNumbersAreKeys(n);
      } else {
        assert IntToDecimal(n) == NatToDecimal(1) + [DigitChar(n - 10)];
        assert IntToDecimal(n) in YouTubeVideos by {
          if n == 10 { assert IntToDecimal(n) == "10"; } else { assert IntToDecimal(n) == "11"; }
        }
      }
    }
  }

  /** Every key is the decimal text of a number from 1 to 11. */
  lemma KeysAreSmallNumbers(key: string)
    requires key in YouTubeVideos
    ensures AllDigits(key) && 1 <= DigitsValue(key) <= 11
  {
  }

  /** Each single digit 1 to 9 is a key. */
  lemma SmallNumbersAreKeys(n: nat)
    requires 1 <= n < 10
    ensures [DigitChar(n)] in YouTubeVideos
  {
  }

  /** Splits a timestamp link back into the video URL and the start second:
      the URL is everything before the last `?t=`, the seconds sit between
      it and the closing `s`, written as `str` writes an integer. A link
      read this way is exactly the one built from its parts. */
  function ParseLink(u: string): (r: Option<(string, int)>)
    ensures r.Some? ==> u == r.value.0 + "?t=" + IntToDecimal(r.value.1) + "s"
  {
    var e := RFind(u, '=');
    if EndsWith(u, "s") && e >= 2 && u[e - 2..e + 1] == "?t=" && e + 1 <= |u| - 1
      && IsCanonicalInt(u[e + 1..|u| - 1])
    then
      var t := u[e + 1..|u| - 1];
      CanonicalIntRoundTrip(t);
      LinkPieces(u, e);
      Some((u[..e - 2], ParseInt(t).value))
    else None
  }

  /** A link cut around its `?t=` and closing `s` is the join of the pieces. */
  lemma LinkPieces(u: string, e: int)
    requires 2 <= e < |u| - 1 && u[e - 2..e + 1] == "?t=" && u[|u| - 1] == 's'
    ensures u == u[..e - 2] + "?t=" + u[e + 1..|u| - 1] + "s"
  {
    assert u == u[..e - 2] + u[e - 2..e + 1] + u[e + 1..|u| - 1] + u[|u| - 1..];
  }

  /** A seconds field with a superfluous leading zero is not a link's. */
  lemma LinkRejectsPaddedSeconds()
    ensures ParseLink("https://youtu.be/x?t=07s") == None
  {
    var u := "https://youtu.be/x?t=07s";
    assert u == "https://youtu.be/x?t" + ['='] + "07s";
    RFindBefore("https://youtu.be/x?t", '=', "07s");
    assert u[21..|u| - 1] == "07";
  }

  /** A link is read back as its video's URL and the truncated start second. */
  lemma LinkRoundTrip(key: string, startSeconds: real)
    requires key in YouTubeVideos
    ensures ParseLink(LinkForKey(key, startSeconds).value) == Some((YouTubeVideos[key], Truncate(startSeconds)))
  {
    var t := Truncate(startSeconds);
    DecimalHasNoEquals(t);
    IntToDecimalCanonical(t);
    IntRoundTrip(t);
    ParseBuiltLink(YouTubeVideos[key], IntToDecimal(t));
  }

  /** Decimal text never holds an '='. */
  lemma DecimalHasNoEquals(i: int)
    ensures '=' !in IntToDecimal(i)
  {
  }

  /** The URL and the seconds text come back out of the link built from them. */
  lemma ParseBuiltLink(base: string, t: string)
    requires '=' !in t && IsCanonicalInt(t)
    ensures ParseInt(t).Some?
    ensures ParseLink(base + "?t=" + t + "s") == Some((base, ParseInt(t).value))
  {
    var u := base + "?t=" + t + "s";
    var e := |base| + 2;
    assert u == (base + "?t") + ['='] + (t + "s");
    RFindBefore(base + "?t", '=', t + "s");
    assert u[e - 2..e + 1] == "?t=";
    assert u[e + 1..|u| - 1] == t;
    assert u[..e - 2] == base;
  }
}
