/** What one pass of the main loop promises: which sentences change the fix
    state and how, when a translated sentence is written and what it holds,
    and how the LED blinks. */
module LoopProperties {
  import opened Checksum
  import opened Framing
  import opened Fields
  import opened Translator

  /** A GPRMC that gets past its output stage sets `FIX_TIME` to "field 1
      is non-empty" and `FIX_STATUS` to "field 2 is `A`", whatever they were
      before, and blinks accordingly. */
  lemma RmcSetsFix(fix: Fix, line: string, convert: Convert)
    requires IsSentence(line, "GPRMC")
    requires |Elems(line)| >= 3
    requires AllPresent(Elems(line), 1, 7) == Holds && |Elems(line)| >= 10 ==>
      RmcFields(Elems(line), convert).Some?
    ensures var e := Elems(line);
      var o := Step(fix, line, convert);
      o.path == Completed && o.fix == Fix(e[1] != "", e[2] == "A") && o.blinks == Blinks(o.fix)
  {
    AllPresentMeaning(Elems(line), 1, 7);
  }

  /** The fix state is overwritten, not merged: after a GPRMC that runs to
      the end, the state does not depend on the state before. */
  lemma RmcOverwrites(f1: Fix, f2: Fix, line: string, convert: Convert)
    requires IsSentence(line, "GPRMC")
    requires Step(f1, line, convert).path == Completed
    ensures Step(f2, line, convert).path == Completed
    ensures Step(f1, line, convert).fix == Step(f2, line, convert).fix
  {
  }

  /** A GPRMC whose numeric conversion raises writes nothing and leaves the
      fix state alone: the conversions come before the state update. */
  lemma RmcConversionFailure(fix: Fix, line: string, convert: Convert)
    requires IsSentence(line, "GPRMC")
    requires |Elems(line)| >= 10 && AllPresent(Elems(line), 1, 7) == Holds
    requires RmcFields(Elems(line), convert).None?
    ensures Step(fix, line, convert) == Outcome(fix, None, 0, Raised)
  {
    AllPresentMeaning(Elems(line), 1, 7);
  }

  /** A GPRMC with only a tag raises at field 1 and changes nothing; with
      only a tag and field 1 it sets `FIX_TIME`, then raises at field 2
      before `FIX_STATUS` and the LED. */
  lemma ShortRmc(fix: Fix, line: string, convert: Convert)
    requires IsSentence(line, "GPRMC") && |Elems(line)| < 3
    ensures var o := Step(fix, line, convert);
      o.path == Raised && o.payload == None && o.blinks == 0 &&
      o.fix == if |Elems(line)| == 1 then fix else fix.(time := Elems(line)[1] != "")
  {
  }

  /** GPRMC output: written exactly when there are at least ten fields,
      fields 1 to 6 are non-empty and every conversion succeeds. */
  lemma RmcOutput(fix: Fix, line: string, convert: Convert)
    requires IsSentence(line, "GPRMC")
    ensures Step(fix, line, convert).payload.Some? <==>
      |Elems(line)| >= 10 && AllPresent(Elems(line), 1, 7) == Holds && RmcFields(Elems(line), convert).Some?
  {
    AllPresentMeaning(Elems(line), 1, 7);
  }

  /** The sentence a GPRMC writes is its translated fields joined. */
  lemma RmcPayload(fix: Fix, line: string, convert: Convert)
    requires IsSentence(line, "GPRMC")
    requires Step(fix, line, convert).payload.Some?
    ensures |Elems(line)| >= 10 && RmcFields(Elems(line), convert).Some?
    ensures Step(fix, line, convert).payload.value == Join(RmcFields(Elems(line), convert).value)
  {
  }

  /** The translated GPRMC, split on commas as the radio reads it: twelve
      fields, each where the layout puts it, with empty speed and course
      converted as "0.0" and two empty fields at the end. */
  lemma RmcLayout(fix: Fix, line: string, convert: Convert)
    requires IsSentence(line, "GPRMC") && Sound(convert)
    requires Step(fix, line, convert).payload.Some?
    ensures var e := Elems(line);
      var f := Split(Step(fix, line, convert).payload.value);
      |e| >= 10 && |f| == 12 &&
      f[0] == "GPRMC" &&
      Some(f[1]) == convert(TIME_FMT, e[1]) && f[2] == e[2] &&
      Some(f[3]) == convert(LAT_FMT, e[3]) && f[4] == e[4] &&
      Some(f[5]) == convert(LON_FMT, e[5]) && f[6] == e[6] &&
      Some(f[7]) == convert(SPEED_FMT, if e[7] == "" then "0.0" else e[7]) &&
      Some(f[8]) == convert(COURSE_FMT, if e[8] == "" then "0.0" else e[8]) &&
      f[9] == e[9] && f[10] == "" && f[11] == ""
  {
    RmcPayload(fix, line, convert);
    RmcFieldsSplit(Elems(line), convert);
  }

  /** Splitting the joined GPRMC fields gives them back. */
  lemma RmcFieldsSplit(e: seq<string>, convert: Convert)
    requires |e| >= 10 && AllNoComma(e) && Sound(convert)
    requires RmcFields(e, convert).Some?
    ensures Split(Join(RmcFields(e, convert).value)) == RmcFields(e, convert).value
  {
    var fields := RmcFields(e, convert).value;
    assert NoComma("0.0") && NoComma("");
    assert AllNoComma(fields) by {
      forall k | 0 <= k < |fields| ensures NoComma(fields[k]) {
      }
    }
    SplitJoin(fields);
  }

  /** GPGGA output: written exactly when fields 1 to 7 are non-empty and
      all thirteen fields are there and convert. */
  lemma GgaOutput(fix: Fix, line: string, convert: Convert)
    requires IsSentence(line, "GPGGA")
    ensures Step(fix, line, convert).payload.Some? <==>
      AllPresent(Elems(line), 1, 8) == Holds && GgaFields(Elems(line), convert).Some?
  {
    AllPresentMeaning(Elems(line), 1, 8);
  }

  /** GPGGA raises, leaving the fix state alone, exactly when the field
      list ends before any of fields 1 to 7 is found empty, or when those
      fields are all there but a later field is missing or does not
      convert. */
  lemma GgaRaises(fix: Fix, line: string, convert: Convert)
    requires IsSentence(line, "GPGGA")
    ensures var e := Elems(line);
      Step(fix, line, convert).path == Raised <==>
        (|e| < 8 && forall j :: 1 <= j < |e| ==> e[j] != "") ||
        (AllPresent(e, 1, 8) == Holds && GgaFields(e, convert).None?)
  {
    AllPresentMeaning(Elems(line), 1, 8);
  }

  /** The sentence a GPGGA writes is its translated fields joined. */
  lemma GgaPayload(fix: Fix, line: string, convert: Convert)
    requires IsSentence(line, "GPGGA")
    requires Step(fix, line, convert).payload.Some?
    ensures |Elems(line)| >= 13 && GgaFields(Elems(line), convert).Some?
    ensures Step(fix, line, convert).payload.value == Join(GgaFields(Elems(line), convert).value)
  {
  }

  /** The translated GPGGA, split on commas: fifteen fields, each where the
      layout puts it, ending in the fixed `000.0` and `0000`. */
  lemma GgaLayout(fix: Fix, line: string, convert: Convert)
    requires IsSentence(line, "GPGGA") && Sound(convert)
    requires Step(fix, line, convert).payload.Some?
    ensures var e := Elems(line);
      var p := Step(fix, line, convert).payload.value;
      var f := Split(p);
      |e| >= 13 && |f| == 15 &&
      f[0] == "GPGGA" &&
      Some(f[1]) == convert(TIME_FMT, e[1]) &&
      Some(f[2]) == convert(LAT_FMT, e[2]) && f[3] == e[3] &&
      Some(f[4]) == convert(LON_FMT, e[4]) && f[5] == e[5] &&
      f[6] == e[6] && f[7] == e[7] &&
      Some(f[8]) == convert(HDOP_FMT, e[8]) &&
      Some(f[9]) == convert(ALT_FMT, e[9]) && f[10] == e[10] &&
      Some(f[11]) == convert(GEOID_FMT, e[11]) && f[12] == e[12] &&
      f[13] == "000.0" && f[14] == "0000" &&
      |p| >= 11 && p[|p| - 11..] == ",000.0,0000"
  {
    GgaPayload(fix, line, convert);
    GgaFieldsSplit(Elems(line), convert);
  }

  /** Splitting the joined GPGGA fields gives them back, and the joined
      text ends in the fixed trailer. */
  lemma GgaFieldsSplit(e: seq<string>, convert: Convert)
    requires |e| >= 13 && AllNoComma(e) && Sound(convert)
    requires GgaFields(e, convert).Some?
    ensures Split(Join(GgaFields(e, convert).value)) == GgaFields(e, convert).value
    ensures var p := Join(GgaFields(e, convert).value);
      |p| >= 11 && p[|p| - 11..] == ",000.0,0000"
  {
    var fields := GgaFields(e, convert).value;
    assert NoComma("000.0") && NoComma("0000");
    assert AllNoComma(fields) by {
      forall k | 0 <= k < |fields| ensures NoComma(fields[k]) {
      }
    }
    SplitJoin(fields);
    assert fields == fields[..13] + ["000.0", "0000"];
    JoinTrailer(fields[..13]);
  }

  /** Joining two more fields `000.0` and `0000` ends the text in
      `,000.0,0000`. */
  lemma JoinTrailer(front: seq<string>)
    requires |front| >= 1
    ensures var p := Join(front + ["000.0", "0000"]);
      |p| >= 11 && p[|p| - 11..] == ",000.0,0000"
  {
    assert front + ["000.0", "0000"] == front + ["000.0"] + ["0000"];
    JoinSnoc(front, "000.0");
    JoinSnoc(front + ["000.0"], "0000");
  }

  /** GPGSV and GPGSA are forwarded as received: the line written to the
      radio is the very line read from the receiver. */
  lemma SatellitesForwarded(fix: Fix, line: string, convert: Convert)
    requires IsSentence(line, "GPGSV") || IsSentence(line, "GPGSA")
    ensures var o := Step(fix, line, convert);
      o.fix == fix && o.blinks == 0 && o.path == Completed &&
      o.payload == Some(StripSentence(line)) && Frame(o.payload.value) == line
  {
    VerifiedIsFrame(line);
  }

  /** Any other sentence is dropped: no output, no state change, no blink. */
  lemma OtherSentencesIgnored(fix: Fix, line: string, convert: Convert)
    requires VerifySentence(line)
    requires Elems(line)[0] !in ["GPRMC", "GPGGA", "GPGSV", "GPGSA"]
    ensures Step(fix, line, convert) == Outcome(fix, None, 0, Completed)
  {
    assert Elems(line)[0] != "GPRMC" && Elems(line)[0] != "GPGGA";
    assert Elems(line)[0] != "GPGSV" && Elems(line)[0] != "GPGSA";
  }

  /** The LED after a GPRMC that runs to the end: one blink with a position
      fix, two with only a time fix, none without a time fix. */
  lemma RmcBlinks(fix: Fix, line: string, convert: Convert)
    requires IsSentence(line, "GPRMC") && Step(fix, line, convert).path == Completed
    ensures var e := Elems(line);
      var o := Step(fix, line, convert);
      |e| >= 3 &&
      (o.blinks == 1 <==> e[2] == "A") &&
      (o.blinks == 2 <==> e[2] != "A" && e[1] != "") &&
      (o.blinks == 0 <==> e[2] != "A" && e[1] == "")
  {
  }

  /** The fields of ASCII text are ASCII. */
  lemma {:induction false} SplitAscii(s: string)
    requires IsAscii(s)
    ensures forall k :: 0 <= k < |Split(s)| ==> IsAscii(Split(s)[k])
    decreases |s|
  {
    var i := FirstComma(s);
    if i < |s| {
      SplitAscii(s[i + 1..]);
    }
  }

  /** Joining ASCII fields with commas gives ASCII text. */
  lemma {:induction false} JoinAscii(fields: seq<string>)
    requires |fields| >= 1 && forall k :: 0 <= k < |fields| ==> IsAscii(fields[k])
    ensures IsAscii(Join(fields))
  {
    if |fields| > 1 {
      JoinAscii(fields[1..]);
    }
  }

  /** Everything written to the radio is a well-formed sentence: it passes
      `verifySentence` and strips back to the sentence written. */
  lemma WrittenSentencesVerify(fix: Fix, line: string, convert: Convert)
    requires IsAscii(line) && Sound(convert)
    requires Step(fix, line, convert).payload.Some?
    ensures var p := Step(fix, line, convert).payload.value;
      VerifySentence(Frame(p)) && StripSentence(Frame(p)) == p && IsAscii(Frame(p))
  {
    var body := StripSentence(line);
    assert body == line[1..|line| - 5];
    assert IsAscii(body);
    SplitAscii(body);
    var e := Elems(line);
    if e[0] == "GPRMC" {
      RmcPayload(fix, line, convert);
      RmcFieldsAscii(e, convert);
    } else if e[0] == "GPGGA" {
      GgaPayload(fix, line, convert);
      GgaFieldsAscii(e, convert);
    }
    var p := Step(fix, line, convert).payload.value;
    FrameRoundTrip(p);
    FrameAscii(p);
  }

  /** The frame of ASCII text is ASCII: the envelope and the hexadecimal
      digits are. */
  lemma FrameAscii(p: string)
    requires IsAscii(p)
    ensures IsAscii(Frame(p))
  {
    var c := CheckSum(p);
    assert forall i :: 0 <= i < |c| ==> IsHexDigit(c[i]);
    var f := Frame(p);
    forall i | 0 <= i < |f| ensures Ord(f[i]) < 128 {
      if 1 <= i < |p| + 1 {
        assert f[i] == p[i - 1];
      } else if |p| + 2 <= i < |p| + 2 + |c| {
        assert f[i] == c[i - |p| - 2];
      }
    }
  }

  /** The translated GPRMC of ASCII fields is ASCII. */
  lemma RmcFieldsAscii(e: seq<string>, convert: Convert)
    requires |e| >= 10 && Sound(convert) && RmcFields(e, convert).Some?
    requires forall k :: 0 <= k < |e| ==> IsAscii(e[k])
    ensures IsAscii(Join(RmcFields(e, convert).value))
  {
    var fields := RmcFields(e, convert).value;
    assert forall k :: 0 <= k < |fields| ==> IsAscii(fields[k]);
    JoinAscii(fields);
  }

  /** The translated GPGGA of ASCII fields is ASCII. */
  lemma GgaFieldsAscii(e: seq<string>, convert: Convert)
    requires Sound(convert) && GgaFields(e, convert).Some?
    requires forall k :: 0 <= k < |e| ==> IsAscii(e[k])
    ensures IsAscii(Join(GgaFields(e, convert).value))
  {
    var fields := GgaFields(e, convert).value;
    assert forall k :: 0 <= k < |fields| ==> IsAscii(fields[k]);
    JoinAscii(fields);
  }

  /** A fix state, once set, stays as it is across any run of lines none
      of which is a GPRMC: a stale position fix is never timed out. */
  lemma {:induction false} StatusPersists(fix: Fix, lines: seq<string>, convert: Convert)
    requires forall k :: 0 <= k < |lines| ==> !IsSentence(lines[k], "GPRMC")
    ensures RunFix(fix, lines, convert).status == fix.status
  {
    if lines != [] {
      var n := |lines|;
      var front := lines[..n - 1];
      assert forall k :: 0 <= k < |front| ==> front[k] == lines[k];
      StatusPersists(fix, front, convert);
      var o := Step(RunFix(fix, front, convert), lines[n - 1], convert);
      assert !IsSentence(lines[n - 1], "GPRMC");
      assert RunFix(fix, lines, convert) == o.fix;
    }
  }

  /** A last line that is neither GPRMC nor GPGGA leaves the fix state of
      a run as it was. */
  lemma RunIgnoresLast(fix: Fix, lines: seq<string>, convert: Convert)
    requires |lines| >= 1
    requires !IsSentence(lines[|lines| - 1], "GPRMC") && !IsSentence(lines[|lines| - 1], "GPGGA")
    ensures RunFix(fix, lines, convert) == RunFix(fix, lines[..|lines| - 1], convert)
  {
  }

  /** Lines that are neither GPRMC nor GPGGA leave the fix state of a run
      as it was before them. */
  lemma {:induction false} RunUnchangedAfter(fix: Fix, lines: seq<string>, m: nat, convert: Convert)
    requires m <= |lines|
    requires forall j :: m <= j < |lines| ==>
      !IsSentence(lines[j], "GPRMC") && !IsSentence(lines[j], "GPGGA")
    ensures RunFix(fix, lines, convert) == RunFix(fix, lines[..m], convert)
    decreases |lines|
  {
    var n := |lines|;
    if n > m {
      var front := lines[..n - 1];
      assert front[..m] == lines[..m];
      assert forall j :: m <= j < |front| ==> front[j] == lines[j];
      RunUnchangedAfter(fix, front, m, convert);
      RunIgnoresLast(fix, lines, convert);
    } else {
      assert lines[..m] == lines;
    }
  }

  /** After a run whose last relevant sentence was a GPRMC that ran to the
      end, the fix state is what that sentence said, whatever came before. */
  lemma LatestRmcDecides(fix: Fix, lines: seq<string>, k: nat, convert: Convert)
    requires k < |lines| && IsSentence(lines[k], "GPRMC")
    requires Step(RunFix(fix, lines[..k], convert), lines[k], convert).path == Completed
    requires forall j :: k < j < |lines| ==>
      !IsSentence(lines[j], "GPRMC") && !IsSentence(lines[j], "GPGGA")
    ensures var e := Elems(lines[k]);
      |e| >= 3 && RunFix(fix, lines, convert) == Fix(e[1] != "", e[2] == "A")
  {
    var through := lines[..k + 1];
    assert through[..k] == lines[..k] && through[k] == lines[k];
    RunThroughRmc(fix, through, convert);
    RunUnchangedAfter(fix, lines, k + 1, convert);
  }

  /** A run that ends in a GPRMC that runs to the end leaves the state that
      GPRMC says. */
  lemma RunThroughRmc(fix: Fix, lines: seq<string>, convert: Convert)
    requires |lines| >= 1 && IsSentence(lines[|lines| - 1], "GPRMC")
    requires Step(RunFix(fix, lines[..|lines| - 1], convert), lines[|lines| - 1], convert).path == Completed
    ensures var e := Elems(lines[|lines| - 1]);
      |e| >= 3 && RunFix(fix, lines, convert) == Fix(e[1] != "", e[2] == "A")
  {
    var before := RunFix(fix, lines[..|lines| - 1], convert);
    var e := Elems(lines[|lines| - 1]);
    assert Step(before, lines[|lines| - 1], convert) == Rmc(before, e, convert);
  }
}
