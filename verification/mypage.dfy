/** The profile page's figures (`public/js/mypage.js`): the study time in milliseconds
    split into hours, minutes and seconds, the form it is shown in, and the score text. */
module MyPage {
  import opened Wrappers
  import opened JsText

  const MsPerSecond: int := 1000
  const MsPerMinute: int := 1000 * 60
  const MsPerHour: int := 1000 * 60 * 60

  /** JavaScript's `%`: the remainder takes the sign of the dividend. */
  function JsRem(a: int, d: int): (r: int)
    requires d > 0
    ensures a >= 0 ==> 0 <= r < d && r == a % d
    ensures a < 0 ==> -d < r <= 0
  {
    if a >= 0 then a % d else -((-a) % d)
  }

  /** `Math.floor(a / d)` for a positive `d`, which is Dafny's `/` on `int`. */
  function FloorDiv(a: int, d: int): (q: int)
    requires d > 0
    ensures q * d <= a < q * d + d
  {
    a / d
  }

  datatype Clock = Clock(hours: int, minutes: int, seconds: int)

  /** `studyTime || 0`. */
  function StudyMs(studyTime: Option<int>): int {
    if studyTime.Some? then studyTime.value else 0
  }

  /** The three `Math.floor` lines. */
  function SplitStudyTime(ms: int): (c: Clock)
    ensures ms >= 0 ==> c.hours >= 0 && 0 <= c.minutes < 60 && 0 <= c.seconds < 60
    ensures ms < 0 ==> c.hours < 0 && c.minutes <= 0 && c.seconds <= 0
  {
    Clock(FloorDiv(ms, MsPerHour), FloorDiv(JsRem(ms, MsPerHour), MsPerMinute),
          FloorDiv(JsRem(ms, MsPerMinute), MsPerSecond))
  }

  function ClockMs(c: Clock): int {
    c.hours * MsPerHour + c.minutes * MsPerMinute + c.seconds * MsPerSecond
  }

  /** For a non-negative duration the split loses only the sub-second part. */
  lemma SplitBounds(ms: int)
    requires ms >= 0
    ensures var c := SplitStudyTime(ms); ClockMs(c) <= ms < ClockMs(c) + MsPerSecond
  {
    var c := SplitStudyTime(ms);
    var h := ms / MsPerHour;
    var rh := ms % MsPerHour;
    var m := rh / MsPerMinute;
    var rm := rh % MsPerMinute;
    var sec := rm / MsPerSecond;
    assert ms == h * MsPerHour + rh;
    assert rh == m * MsPerMinute + rm;
    DivModOf(ms, MsPerMinute, h * 60 + m, rm);
    assert c == Clock(h, m, sec);
    assert rm == sec * MsPerSecond + rm % MsPerSecond;
  }

  /** The quotient and remainder of `a` by `d` are the unique `q` and `r` with
      `a == q * d + r` and `0 <= r < d`. */
  lemma DivModOf(a: int, d: int, q: int, r: int)
    requires d > 0 && 0 <= r < d && a == q * d + r
    ensures a / d == q && a % d == r
  {
    var q' := a / d;
    var r' := a % d;
    assert a == q' * d + r' && 0 <= r' < d;
    assert (q - q') * d == r' - r;
    if q > q' {
      MulAtLeast(q - q', d);
    } else if q < q' {
      assert (q' - q) * d == r - r';
      MulAtLeast(q' - q, d);
    }
  }

  lemma {:induction false} MulAtLeast(k: int, d: int)
    requires k >= 1 && d > 0
    ensures k * d >= d
    decreases k
  {
    if k > 1 {
      MulAtLeast(k - 1, d);
      assert k * d == (k - 1) * d + d;
    }
  }

  /** Building a duration from a clock reading and splitting it again gives the reading
      back. */
  lemma SplitOfClock(c: Clock, extra: int)
    requires c.hours >= 0 && 0 <= c.minutes < 60 && 0 <= c.seconds < 60 && 0 <= extra < MsPerSecond
    ensures SplitStudyTime(ClockMs(c) + extra) == c
  {
    var ms := ClockMs(c) + extra;
    var tiny := c.seconds * MsPerSecond + extra;
    var low := c.minutes * MsPerMinute + tiny;
    DivModOf(ms, MsPerHour, c.hours, low);
    DivModOf(low, MsPerMinute, c.minutes, tiny);
    DivModOf(ms, MsPerMinute, c.hours * 60 + c.minutes, tiny);
    DivModOf(tiny, MsPerSecond, c.seconds, extra);
  }

  /** The text shown: hours only when there are some, minutes only when there are some
      or hours are shown. */
  function StudyTimeText(ms: int): (r: string)
    ensures var c := SplitStudyTime(ms);
      && (c.hours > 0 ==> r == IntToString(c.hours) + "時間 " + IntToString(c.minutes) + "分 " + IntToString(c.seconds) + "秒")
      && (c.hours <= 0 && c.minutes > 0 ==> r == IntToString(c.minutes) + "分 " + IntToString(c.seconds) + "秒")
      && (c.hours <= 0 && c.minutes <= 0 ==> r == IntToString(c.seconds) + "秒")
    ensures r != ""
  {
    var c := SplitStudyTime(ms);
    if c.hours > 0 then
      IntToString(c.hours) + "時間 " + IntToString(c.minutes) + "分 " + IntToString(c.seconds) + "秒"
    else if c.minutes > 0 then IntToString(c.minutes) + "分 " + IntToString(c.seconds) + "秒"
    else IntToString(c.seconds) + "秒"
  }

  /** A missing or zero study time is shown as "0秒". */
  lemma NoStudyTimeShowsZero(studyTime: Option<int>)
    requires studyTime.None? || studyTime.value == 0
    ensures StudyTimeText(StudyMs(studyTime)) == "0秒"
  {
    assert IntToString(0) == "0";
  }

  /** The leading number of the text is the largest unit that is shown. */
  lemma LeadingNumber(ms: int)
    ensures var c := SplitStudyTime(ms);
      ParseInt(StudyTimeText(ms)) == Some(if c.hours > 0 then c.hours else if c.minutes > 0 then c.minutes else c.seconds)
  {
    var c := SplitStudyTime(ms);
    var text := StudyTimeText(ms);
    if c.hours > 0 {
      var rest := "時間 " + IntToString(c.minutes) + "分 " + IntToString(c.seconds) + "秒";
      assert text == IntToString(c.hours) + rest;
      ParseIntPrefix(c.hours, rest);
    } else if c.minutes > 0 {
      var rest := "分 " + IntToString(c.seconds) + "秒";
      assert text == IntToString(c.minutes) + rest;
      ParseIntPrefix(c.minutes, rest);
    } else {
      ParseIntPrefix(c.seconds, "秒");
    }
  }

  /** `(score || 0) + " 点"`. */
  function ScoreText(score: Option<int>): (r: string)
    ensures ParseInt(r) == Some(if score.Some? then score.value else 0)
    ensures |r| > 2 && r[|r| - 2..] == " 点"
    ensures r[..|r| - 2] == IntToString(if score.Some? then score.value else 0)
  {
    var shown := if score.Some? then score.value else 0;
    ParseIntPrefix(shown, " 点");
    IntToString(shown) + " 点"
  }
}
