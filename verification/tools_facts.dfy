/** Properties of the duration and bitrate helpers. */
module ToolsFacts {
  import opened Wrappers
  import opened Strings
  import opened Numerals
  import opened Tools

  lemma SplitColons(h: string, m: string, s: string)
    requires ':' !in h && ':' !in m && ':' !in s
    ensures Split(Colons(h, m, s), ":") == [h, m, s]
  {
    var pieces := [h, m, s];
    assert pieces[1..] == [m, s] && [m, s][1..] == [s];
    assert Join([m, s], ":") == m + ":" + s;
    assert Join(pieces, ":") == Colons(h, m, s);
    SplitJoinChar(pieces, ':');
  }

  /** Text with two colons is converted field by field. */
  lemma IntDurationOfColons(h: string, m: string, s: string)
    requires ':' !in h && ':' !in m && ':' !in s
    ensures IntDuration(Colons(h, m, s)) == SecondsOfFields(h, m, s)
  {
    SplitColons(h, m, s);
  }

  /** Three colon-separated decimal fields give h * 3600 + m * 60 + s. */
  lemma IntDurationOfDigits(h: string, m: string, s: string)
    requires |h| > 0 && AllDigits(h)
    requires |m| > 0 && AllDigits(m)
    requires |s| > 0 && AllDigits(s)
    ensures IntDuration(Colons(h, m, s)) == Success(Seconds(ValueOf(h), ValueOf(m), ValueOf(s)))
  {
    ParseIntOfDigits(h);
    ParseIntOfDigits(m);
    ParseIntOfDigits(s);
    NoColonInDigits(h);
    NoColonInDigits(m);
    NoColonInDigits(s);
    IntDurationOfParsed(h, m, s, ValueOf(h), ValueOf(m), ValueOf(s));
  }

  lemma IntDurationOfParsed(hh: string, mm: string, ss: string, h: int, m: int, s: int)
    requires ':' !in hh && ':' !in mm && ':' !in ss
    requires ParseInt(hh) == Some(h) && ParseInt(mm) == Some(m) && ParseInt(ss) == Some(s)
    ensures IntDuration(Colons(hh, mm, ss)) == Success(Seconds(h, m, s))
  {
    IntDurationOfColons(hh, mm, ss);
    SecondsOfParsed(hh, mm, ss, h, m, s);
  }

  lemma SecondsOfParsed(h: string, m: string, s: string, a: int, b: int, c: int)
    requires ParseInt(h) == Some(a) && ParseInt(m) == Some(b) && ParseInt(s) == Some(c)
    ensures SecondsOfFields(h, m, s) == Success(Seconds(a, b, c))
  {
  }

  lemma NoColonInDigits(s: string)
    requires AllDigits(s)
    ensures ':' !in s
  {
  }

  /** Formatting a duration and reading it back gives its number of seconds. */
  lemma IntDurationRoundTrip(h: nat, m: nat, s: nat)
    ensures IntDuration(FormatDuration(h, m, s)) == Success(Seconds(h, m, s))
  {
    TwoDigitsParse(h);
    TwoDigitsParse(m);
    TwoDigitsParse(s);
    IntDurationOfParsed(TwoDigits(h), TwoDigits(m), TwoDigits(s), h, m, s);
  }

  lemma TwoDigitsParse(n: nat)
    ensures ParseInt(TwoDigits(n)) == Some(n) && ':' !in TwoDigits(n)
  {
    DecimalValue(n);
    ZeroPadValue(Decimal(n), 2);
    ParseIntOfDigits(TwoDigits(n));
    NoColonInDigits(TwoDigits(n));
  }

  /** A seconds field with a fractional part (`hh:mm:ss.mmm`) is rejected. */
  lemma IntDurationRejectsFraction(h: string, m: string, s: string, k: nat)
    requires |h| > 0 && AllDigits(h)
    requires |m| > 0 && AllDigits(m)
    requires ':' !in s
    requires k < |s| && s[k] == '.'
    ensures IntDuration(Colons(h, m, s)) == Failure(NotAnInteger(s))
  {
    assert ':' !in h && ':' !in m;
    ParseIntOfDigits(h);
    ParseIntOfDigits(m);
    ParseIntRejectsForeign(s, k);
    IntDurationOfColons(h, m, s);
  }

  /** An empty field is rejected; the first field `int()` rejects is reported. */
  lemma IntDurationRejectsEmptyField(h: string, m: string, s: string)
    requires ':' !in h && ':' !in m && ':' !in s
    requires h == "" || m == "" || s == ""
    ensures IntDuration(Colons(h, m, s)).Failure?
    ensures IntDuration(Colons(h, m, s)).error.NotAnInteger?
  {
    ParseIntRejectsBlank("");
    IntDurationOfColons(h, m, s);
  }

  /** The unpacking fails exactly when the text does not hold two colons, and
      then reports one field more than there are colons. */
  lemma IntDurationFieldCount(duration: string)
    ensures IntDuration(duration).Failure? && IntDuration(duration).error.FieldCount?
            <==> CountOccurrences(duration, ":") != 2
    ensures IntDuration(duration).Failure? && IntDuration(duration).error.FieldCount? ==>
              IntDuration(duration).error.found == CountOccurrences(duration, ":") + 1
  {
    SplitCount(duration, ":");
  }

  /** Any number of fields other than three is refused by the unpacking. */
  lemma IntDurationRejectsFieldCount(fields: seq<string>)
    requires |fields| >= 1 && |fields| != 3
    requires forall k :: 0 <= k < |fields| ==> ':' !in fields[k]
    ensures IntDuration(Join(fields, ":")) == Failure(FieldCount(|fields|))
  {
    SplitJoinChar(fields, ':');
  }

  /** `"01:02:03"` is 3723 seconds. */
  lemma IntDurationExampleWhole()
    ensures IntDuration("01:02:03") == Success(3723)
  {
    assert Seconds(1, 2, 3) == 3723;
    assert ValueOf("01") == 1 by { assert "01"[..1] == "0" && "0"[..0] == ""; }
    assert ValueOf("02") == 2 by { assert "02"[..1] == "0" && "0"[..0] == ""; }
    assert ValueOf("03") == 3 by { assert "03"[..1] == "0" && "0"[..0] == ""; }
    assert Colons("01", "02", "03") == "01:02:03";
    IntDurationOfDigits("01", "02", "03");
  }

  /** `"00:00:01.999"` is refused: `int("01.999")` raises. */
  lemma IntDurationExampleFraction()
    ensures IntDuration("00:00:01.999") == Failure(NotAnInteger("01.999"))
  {
    assert Colons("00", "00", "01.999") == "00:00:01.999";
    IntDurationRejectsFraction("00", "00", "01.999", 2);
  }

  /** `"01:02"` and `"00:01:02:03"` have the wrong number of fields. */
  lemma IntDurationExampleFieldCount()
    ensures IntDuration("01:02") == Failure(FieldCount(2))
    ensures IntDuration("00:01:02:03") == Failure(FieldCount(4))
  {
    IntDurationTwoFields();
    IntDurationFourFields();
  }

  lemma IntDurationTwoFields()
    ensures IntDuration("01:02") == Failure(FieldCount(2))
  {
    assert Join(["01", "02"], ":") == "01:02";
    IntDurationRejectsFieldCount(["01", "02"]);
  }

  lemma IntDurationFourFields()
    ensures IntDuration("00:01:02:03") == Failure(FieldCount(4))
  {
    var fields := ["00", "01", "02", "03"];
    assert fields[1..] == ["01", "02", "03"] && fields[1..][1..] == ["02", "03"];
    assert Join(["02", "03"], ":") == "02:03";
    assert Join(["01", "02", "03"], ":") == "01:02:03";
    assert Join(fields, ":") == "00:01:02:03";
    IntDurationRejectsFieldCount(fields);
  }

  /** The wider frame of the table gets the smaller bits-per-pixel figure. */
  lemma BpfDecreasesWithWidth(w1: int, w2: int)
    requires GetBpf(w1).Some? && GetBpf(w2).Some?
    requires w1 <= w2
    ensures GetBpf(w2).value <= GetBpf(w1).value
    ensures 0.0 < GetBpf(w2).value < 0.1
  {
  }

  /** Only one integer is `x` rounded half away from zero. */
  lemma RoundHalfAwayUnique(x: real, n: int)
    requires IsRoundedHalfAway(x, n)
    ensures n == RoundHalfAway(x)
  {
  }

  lemma RoundHalfAwayMonotone(x: real, y: real)
    requires x <= y
    ensures RoundHalfAway(x) <= RoundHalfAway(y)
  {
  }

  /** Non-negative geometry and frame rate give a non-negative bitrate. */
  lemma BitrateNonNegative(width: int, height: int, fps: real)
    requires height >= 0 && fps >= 0.0
    requires GetBitrate(width, height, fps).Some?
    ensures GetBitrate(width, height, fps).value >= 0
  {
    var bpf := GetBpf(width).value;
    var pixels := bpf * width as real * height as real;
    assert pixels >= 0.0;
    assert pixels * fps >= 0.0;
  }

  /** A higher frame rate never lowers the bitrate. */
  lemma BitrateMonotoneInFps(width: int, height: int, fps1: real, fps2: real)
    requires height >= 0 && fps1 <= fps2
    requires GetBpf(width).Some?
    ensures GetBitrate(width, height, fps1).value <= GetBitrate(width, height, fps2).value
  {
    var perFrame := GetBpf(width).value * width as real * height as real;
    assert perFrame >= 0.0;
    assert perFrame * fps1 <= perFrame * fps2;
    RoundHalfAwayMonotone(ExactKbps(GetBpf(width).value, width, height, fps1),
                          ExactKbps(GetBpf(width).value, width, height, fps2));
  }

  /** 1080p at 24 fps: 0.076 * 1920 * 1080 * 24 / 1000 = 3782.2464, so 3782;
      720p at 25 fps: 0.092 * 1280 * 720 * 25 / 1000 = 2119.68, so 2120. */
  lemma BitrateExamples()
    ensures GetBitrate(1920, 1080, 24.0) == Some(3782)
    ensures GetBitrate(1280, 720, 25.0) == Some(2120)
    ensures GetBitrate(1440, 1080, 24.0) == None
  {
    assert ExactKbps(0.076, 1920, 1080, 24.0) == 3782.2464;
    RoundHalfAwayUnique(3782.2464, 3782);
    assert ExactKbps(0.092, 1280, 720, 25.0) == 2119.68;
    RoundHalfAwayUnique(2119.68, 2120);
  }
}
