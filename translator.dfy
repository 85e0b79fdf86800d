/** One pass of the main loop of main.py: a received line is checked,
    stripped and split; GPRMC and GPGGA sentences are rewritten into the
    fixed-width form the radio expects and update the fix state, GPGSV and
    GPGSA sentences are forwarded as they are, and anything else is dropped.
    The fix state then chooses how often the LED blinks. */
module Translator {
  import opened Checksum
  import opened Framing
  import opened Fields

  datatype Option<T> = None | Some(value: T)

  /** A fixed-point format `{0:0W.Pf}`: zero-padded to width W with P
      digits after the point. */
  datatype NumFormat = NumFormat(width: nat, precision: nat)

  const TIME_FMT := NumFormat(10, 3)    // UTC time, `{0:010.3f}`
  const LAT_FMT := NumFormat(9, 4)      // latitude, `{0:09.4f}`
  const LON_FMT := NumFormat(10, 4)     // longitude, `{0:010.4f}`
  const SPEED_FMT := NumFormat(7, 2)    // speed over ground, `{0:07.2f}`
  const COURSE_FMT := NumFormat(6, 2)   // course over ground, `{0:06.2f}`
  const HDOP_FMT := NumFormat(4, 1)     // horizontal dilution, `{0:04.1f}`
  const ALT_FMT := NumFormat(7, 1)      // altitude, `{0:07.1f}`
  const GEOID_FMT := NumFormat(6, 1)    // geoid separation, `{0:06.1f}`

  /** `fmt.format(float(field))`: the formatted number, or None when
      `float` raises on the field. */
  type Convert = (NumFormat, string) -> Option<string>

  /** What formatted numbers look like: ASCII without commas. */
  ghost predicate Sound(convert: Convert) {
    forall f: NumFormat, x: string :: convert(f, x).Some? ==>
      IsAscii(convert(f, x).value) && NoComma(convert(f, x).value)
  }

  /** The two globals `FIX_TIME` and `FIX_STATUS`. */
  datatype Fix = Fix(time: bool, status: bool)

  /** How a pass ends: the line is refused by `verifySentence`, an
      exception is caught by the `except` around the sentence handling, or
      the handling runs to the end. */
  datatype Path = Invalid | Raised | Completed

  /** The effect of one pass: the fix state after it, the sentence handed to
      `writeSentence` if any, and the number of LED blinks. */
  datatype Outcome = Outcome(fix: Fix, payload: Option<string>, blinks: nat, path: Path)

  /** The value of Python's `elems[k] and ... and elems[hi-1]`, read left to
      right: an index past the end raises before any later field is read. */
  datatype Truth = Holds | Fails | OutOfRange

  function AllPresent(elems: seq<string>, k: nat, hi: nat): (t: Truth)
    ensures t == Fails ==> k < |elems|
    decreases hi - k
  {
    if k >= hi then Holds
    else if k >= |elems| then OutOfRange
    else if elems[k] == "" then Fails
    else AllPresent(elems, k + 1, hi)
  }

  /** The `and` chain holds exactly when every field in range exists and is
      non-empty, and raises exactly when the list ends before the chain
      meets an empty field. */
  lemma {:induction false} AllPresentMeaning(elems: seq<string>, k: nat, hi: nat)
    requires k <= hi
    ensures AllPresent(elems, k, hi) == Holds <==>
      k == hi || (hi <= |elems| && forall j :: k <= j < hi ==> elems[j] != "")
    ensures AllPresent(elems, k, hi) == OutOfRange <==>
      k < hi && |elems| < hi && forall j :: k <= j < |elems| ==> elems[j] != ""
    decreases hi - k
  {
    if k < hi && k < |elems| && elems[k] != "" {
      AllPresentMeaning(elems, k + 1, hi);
      if AllPresent(elems, k + 1, hi) != Holds && hi <= |elems| {
        var j :| k + 1 <= j < hi && elems[j] == "";
      }
      if AllPresent(elems, k + 1, hi) != OutOfRange && |elems| < hi {
        var j :| k + 1 <= j < |elems| && elems[j] == "";
      }
    }
  }

  /** The blink pattern after a GPRMC: one blink with a position fix, two
      with only a time fix, none without either. */
  function Blinks(fix: Fix): (n: nat)
    ensures n <= 2
    ensures n == 1 <==> fix.status
    ensures n == 2 <==> !fix.status && fix.time
    ensures n == 0 <==> !fix.status && !fix.time
  {
    if fix.status then 1 else if fix.time then 2 else 0
  }

  /** The fields of the translated GPRMC sentence, in order, or None when a
      numeric conversion raises. Empty speed and course read as "0.0". */
  function RmcFields(elems: seq<string>, convert: Convert): (r: Option<seq<string>>)
    requires |elems| >= 10
    ensures r.Some? ==>
      |r.value| == 12 && r.value[0] == "GPRMC" &&
      r.value[2] == elems[2] && r.value[4] == elems[4] && r.value[6] == elems[6] &&
      r.value[9] == elems[9] && r.value[10] == "" && r.value[11] == ""
    ensures r.None? <==>
      convert(TIME_FMT, elems[1]).None? || convert(LAT_FMT, elems[3]).None? ||
      convert(LON_FMT, elems[5]).None? ||
      convert(SPEED_FMT, if elems[7] == "" then "0.0" else elems[7]).None? ||
      convert(COURSE_FMT, if elems[8] == "" then "0.0" else elems[8]).None?
    ensures Sound(convert) && AllNoComma(elems) && r.Some? ==> AllNoComma(r.value)
  {
    var speed := if elems[7] == "" then "0.0" else elems[7];
    var course := if elems[8] == "" then "0.0" else elems[8];
    var time := convert(TIME_FMT, elems[1]);
    var lat := convert(LAT_FMT, elems[3]);
    var lon := convert(LON_FMT, elems[5]);
    var sog := convert(SPEED_FMT, speed);
    var cog := convert(COURSE_FMT, course);
    if time.None? || lat.None? || lon.None? || sog.None? || cog.None? then None
    else Some(["GPRMC", time.value, elems[2], lat.value, elems[4], lon.value, elems[6],
               sog.value, cog.value, elems[9], "", ""])
  }

  /** The fields of the translated GPGGA sentence, in order, or None when a
      numeric conversion raises or a field past the seventh is missing.
      The last two fields stand for absent differential GPS data. */
  function GgaFields(elems: seq<string>, convert: Convert): (r: Option<seq<string>>)
    ensures r.Some? ==>
      |elems| >= 13 && |r.value| == 15 && r.value[0] == "GPGGA" &&
      r.value[3] == elems[3] && r.value[5] == elems[5] && r.value[6] == elems[6] &&
      r.value[7] == elems[7] && r.value[10] == elems[10] && r.value[12] == elems[12] &&
      r.value[13] == "000.0" && r.value[14] == "0000"
    ensures Sound(convert) && AllNoComma(elems) && r.Some? ==> AllNoComma(r.value)
  {
    if |elems| < 13 then None
    else
      var time := convert(TIME_FMT, elems[1]);
      var lat := convert(LAT_FMT, elems[2]);
      var lon := convert(LON_FMT, elems[4]);
      var hdop := convert(HDOP_FMT, elems[8]);
      var alt := convert(ALT_FMT, elems[9]);
      var geoid := convert(GEOID_FMT, elems[11]);
      if time.None? || lat.None? || lon.None? || hdop.None? || alt.None? || geoid.None? then None
      else Some(["GPGGA", time.value, lat.value, elems[3], lon.value, elems[5], elems[6], elems[7],
                 hdop.value, alt.value, elems[10], geoid.value, elems[12], "000.0", "0000"])
  }

  /** The GPGGA translation exists exactly when all thirteen fields are
      there and every one of the six conversions succeeds. */
  lemma GgaFieldsDefined(elems: seq<string>, convert: Convert)
    ensures GgaFields(elems, convert).Some? <==>
      |elems| >= 13 &&
      convert(TIME_FMT, elems[1]).Some? && convert(LAT_FMT, elems[2]).Some? &&
      convert(LON_FMT, elems[4]).Some? && convert(HDOP_FMT, elems[8]).Some? &&
      convert(ALT_FMT, elems[9]).Some? && convert(GEOID_FMT, elems[11]).Some?
  {
  }

  /** GPRMC: output when there are ten fields and fields 1 to 6 are
      present; then `FIX_TIME` (field 1), `FIX_STATUS` (field 2) and the
      blinks. A short list raises at field 1 or field 2, after the fields
      before it took effect. */
  function Rmc(fix: Fix, elems: seq<string>, convert: Convert): (o: Outcome)
    requires |elems| >= 1
    ensures o.path != Invalid
    ensures o.path == Completed <==>
      |elems| >= 3 &&
      (|elems| >= 10 && AllPresent(elems, 1, 7) == Holds ==> RmcFields(elems, convert).Some?)
    ensures o.path == Completed ==>
      o.fix == Fix(elems[1] != "", elems[2] == "A") && o.blinks == Blinks(o.fix) &&
      (o.payload.Some? <==> |elems| >= 10 && AllPresent(elems, 1, 7) == Holds)
    ensures o.path == Raised ==> o.payload == None && o.blinks == 0 && o.fix.status == fix.status
  {
    var output := |elems| >= 10 && AllPresent(elems, 1, 7) == Holds;
    var fields := if output then RmcFields(elems, convert) else None;
    if output && fields.None? then Outcome(fix, None, 0, Raised)
    else if |elems| < 2 then Outcome(fix, None, 0, Raised)
    else if |elems| < 3 then Outcome(fix.(time := elems[1] != ""), None, 0, Raised)
    else
      var now := Fix(elems[1] != "", elems[2] == "A");
      Outcome(now, if output then Some(Join(fields.value)) else None, Blinks(now), Completed)
  }

  /** GPGGA: output when fields 1 to 7 are present; then `FIX_TIME`
      (field 1). The presence test itself raises on a list that ends before
      an empty field. */
  function Gga(fix: Fix, elems: seq<string>, convert: Convert): (o: Outcome)
    ensures o.path != Invalid && o.blinks == 0 && o.fix.status == fix.status
    ensures o.path == Completed ==> |elems| >= 2 && o.fix.time == (elems[1] != "")
    ensures o.path == Raised ==> o.fix == fix && o.payload == None
    ensures o.payload.Some? ==> AllPresent(elems, 1, 8) == Holds && GgaFields(elems, convert).Some?
  {
    var present := AllPresent(elems, 1, 8);
    if present == OutOfRange then Outcome(fix, None, 0, Raised)
    else
      var fields := if present == Holds then GgaFields(elems, convert) else None;
      if present == Holds && fields.None? then Outcome(fix, None, 0, Raised)
      else Outcome(fix.(time := elems[1] != ""),
                   if present == Holds then Some(Join(fields.value)) else None, 0, Completed)
  }

  /** The fields of a received line: its body split on commas. */
  function Elems(line: string): (elems: seq<string>)
    ensures |elems| >= 1
  {
    Split(StripSentence(line))
  }

  /** One pass of the main loop over a received (already decoded) line. */
  function Step(fix: Fix, line: string, convert: Convert): (o: Outcome)
    ensures o.path == Invalid <==> !VerifySentence(line)
    ensures o.path == Invalid ==> o == Outcome(fix, None, 0, Invalid)
    ensures o.fix.status != fix.status || o.blinks != 0 ==> IsSentence(line, "GPRMC")
    ensures o.fix.time != fix.time ==> IsSentence(line, "GPRMC") || IsSentence(line, "GPGGA")
  {
    if !VerifySentence(line) then Outcome(fix, None, 0, Invalid)
    else
      var elems := Elems(line);
      if elems[0] == "GPRMC" then Rmc(fix, elems, convert)
      else if elems[0] == "GPGGA" then Gga(fix, elems, convert)
      else if elems[0] == "GPGSV" || elems[0] == "GPGSA" then
        Outcome(fix, Some(StripSentence(line)), 0, Completed)
      else Outcome(fix, None, 0, Completed)
  }

  /** The fix state after a sequence of lines, each handled in turn. */
  function RunFix(fix: Fix, lines: seq<string>, convert: Convert): Fix
  {
    if lines == [] then fix
    else Step(RunFix(fix, lines[..|lines| - 1], convert), lines[|lines| - 1], convert).fix
  }

  /** What a sequence of lines writes to the radio, in order. */
  function RunOutput(fix: Fix, lines: seq<string>, convert: Convert): (out: seq<string>)
    ensures |out| <= |lines|
    ensures forall i :: 0 <= i < |out| ==> |out[i]| >= 6 && out[i][0] == '$'
  {
    if lines == [] then []
    else
      var o := Step(RunFix(fix, lines[..|lines| - 1], convert), lines[|lines| - 1], convert);
      RunOutput(fix, lines[..|lines| - 1], convert) + (if o.payload.Some? then [Frame(o.payload.value)] else [])
  }

  /** An accepted line whose first field is `tag`. */
  predicate IsSentence(line: string, tag: string) {
    VerifySentence(line) && Elems(line)[0] == tag
  }

  // ---------------------------------------------------------------------
  // The globals and the loop body, as the program runs them.

  class FixState {
    var fixTime: bool
    var fixStatus: bool
    /** Every line written to the radio so far, in order. */
    var radio: seq<string>

    constructor ()
      ensures !fixTime && !fixStatus && radio == []
    {
      fixTime, fixStatus, radio := false, false, [];
    }

    function Snapshot(): Fix
      reads this
    {
      Fix(fixTime, fixStatus)
    }

    /** `writeSentence`: frame the sentence with its checksum and send it. */
    method WriteSentence(sentence: string)
      modifies this`radio
      ensures radio == old(radio) + [Frame(sentence)]
    {
      var hexChecksum := ComputeCheckSum(sentence);
      var outstr := "$" + sentence + "*" + hexChecksum + "\r\n";
      radio := radio + [outstr];
    }

    /** The body of the main loop after decoding: verify, strip, split,
        dispatch on the tag, update the fix globals, write the translated
        or forwarded sentence and report the blinks. */
    method ProcessSentence(line: string, convert: Convert) returns (path: Path, blinks: nat)
      modifies this`fixTime, this`fixStatus, this`radio
      ensures var o := Step(old(Snapshot()), line, convert);
        Snapshot() == o.fix && path == o.path && blinks == o.blinks &&
        radio == old(radio) + (if o.payload.Some? then [Frame(o.payload.value)] else [])
    {
      blinks := 0;
      if !VerifySentence(line) {
        return Invalid, 0;
      }
      var buff := StripSentence(line);
      var elems := Split(buff);
      path := Completed;
      if elems[0] == "GPRMC" {
        path, blinks := ProcessRmc(elems, convert);
      } else if elems[0] == "GPGGA" {
        path := ProcessGga(elems, convert);
      } else if elems[0] == "GPGSV" || elems[0] == "GPGSA" {
        WriteSentence(buff);
      }
    }

    /** The `while True` loop over the lines read before the exit pin is
        grounded. */
    method MainLoop(lines: seq<string>, convert: Convert)
      modifies this`fixTime, this`fixStatus, this`radio
      ensures Snapshot() == RunFix(old(Snapshot()), lines, convert)
      ensures radio == old(radio) + RunOutput(old(Snapshot()), lines, convert)
    {
      for i := 0 to |lines|
        invariant Snapshot() == RunFix(old(Snapshot()), lines[..i], convert)
        invariant radio == old(radio) + RunOutput(old(Snapshot()), lines[..i], convert)
      {
        assert lines[..i + 1][..i] == lines[..i];
        var _, _ := ProcessSentence(lines[i], convert);
      }
      assert lines[..|lines|] == lines;
    }

    method ProcessRmc(elems: seq<string>, convert: Convert) returns (path: Path, blinks: nat)
      requires |elems| >= 1
      modifies this`fixTime, this`fixStatus, this`radio
      ensures var o := Rmc(old(Snapshot()), elems, convert);
        Snapshot() == o.fix && path == o.path && blinks == o.blinks &&
        radio == old(radio) + (if o.payload.Some? then [Frame(o.payload.value)] else [])
    {
      blinks := 0;
      if |elems| >= 10 && AllPresent(elems, 1, 7) == Holds {
        var outstr := BuildRmc(elems, convert);
        if outstr.None? {
          return Raised, 0;
        }
        WriteSentence(outstr.value);
      }
      if |elems| < 2 {
        return Raised, 0;
      }
      fixTime := elems[1] != "";
      if |elems| < 3 {
        return Raised, 0;
      }
      fixStatus := elems[2] == "A";
      if fixStatus {
        blinks := 1;
      } else if fixTime {
        blinks := 2;
      }
      path := Completed;
    }

    method ProcessGga(elems: seq<string>, convert: Convert) returns (path: Path)
      modifies this`fixTime, this`radio
      ensures var o := Gga(old(Snapshot()), elems, convert);
        Snapshot() == o.fix && path == o.path && o.blinks == 0 &&
        radio == old(radio) + (if o.payload.Some? then [Frame(o.payload.value)] else [])
    {
      var present := AllPresent(elems, 1, 8);
      if present == OutOfRange {
        return Raised;
      }
      if present == Holds {
        AllPresentMeaning(elems, 1, 8);
        var outstr := BuildGga(elems, convert);
        if outstr.None? {
          return Raised;
        }
        WriteSentence(outstr.value);
      }
      fixTime := elems[1] != "";
      path := Completed;
    }
  }

  /** The GPRMC rewrite as the program builds it: empty speed and course
      are overwritten with "0.0" in place, then the output is concatenated
      piece by piece, each numeric field converted just before it is
      appended; the first conversion that raises abandons the sentence. */
  method BuildRmc(elems: seq<string>, convert: Convert) returns (outstr: Option<string>)
    requires |elems| >= 10
    ensures outstr.Some? <==> RmcFields(elems, convert).Some?
    ensures outstr.Some? ==> outstr.value == Join(RmcFields(elems, convert).value)
  {
    var e := elems;
    if e[7] == "" {
      e := e[7 := "0.0"];
    }
    if e[8] == "" {
      e := e[8 := "0.0"];
    }
    var time := convert(TIME_FMT, e[1]);
    if time.None? { return None; }
    var s := "GPRMC," + time.value + ",";
    s := s + e[2] + ",";
    var lat := convert(LAT_FMT, e[3]);
    if lat.None? { return None; }
    s := s + lat.value + "," + e[4] + ",";
    var lon := convert(LON_FMT, e[5]);
    if lon.None? { return None; }
    s := s + lon.value + "," + e[6] + ",";
    var sog := convert(SPEED_FMT, e[7]);
    if sog.None? { return None; }
    s := s + sog.value + ",";
    var cog := convert(COURSE_FMT, e[8]);
    if cog.None? { return None; }
    s := s + cog.value + "," + e[9] + ",,";
    RmcJoin(time.value, e[2], lat.value, e[4], lon.value, e[6], sog.value, cog.value, e[9]);
    outstr := Some(s);
  }

  /** The GPGGA rewrite as the program builds it: concatenated piece by
      piece, each numeric field converted just before it is appended; a
      conversion that raises, or a field past the end of the list,
      abandons the sentence. */
  method BuildGga(elems: seq<string>, convert: Convert) returns (outstr: Option<string>)
    requires |elems| >= 8
    ensures outstr.Some? <==> GgaFields(elems, convert).Some?
    ensures outstr.Some? ==> outstr.value == Join(GgaFields(elems, convert).value)
  {
    var time := convert(TIME_FMT, elems[1]);
    if time.None? { return None; }
    var s := "GPGGA," + time.value + ",";
    var lat := convert(LAT_FMT, elems[2]);
    if lat.None? { return None; }
    s := s + lat.value + "," + elems[3] + ",";
    var lon := convert(LON_FMT, elems[4]);
    if lon.None? { return None; }
    s := s + lon.value + "," + elems[5] + ",";
    s := s + elems[6] + "," + elems[7] + ",";
    if |elems| < 9 { return None; }
    var hdop := convert(HDOP_FMT, elems[8]);
    if hdop.None? { return None; }
    s := s + hdop.value + ",";
    if |elems| < 10 { return None; }
    var alt := convert(ALT_FMT, elems[9]);
    if alt.None? { return None; }
    if |elems| < 11 { return None; }
    s := s + alt.value + "," + elems[10] + ",";
    if |elems| < 12 { return None; }
    var geoid := convert(GEOID_FMT, elems[11]);
    if geoid.None? { return None; }
    if |elems| < 13 { return None; }
    s := s + geoid.value + "," + elems[12] + ",000.0,0000";
    GgaJoin(time.value, lat.value, elems[3], lon.value, elems[5], elems[6], elems[7],
            hdop.value, alt.value, elems[10], geoid.value, elems[12]);
    outstr := Some(s);
  }

  /** The GPRMC concatenation is the comma-join of its twelve fields. */
  lemma RmcJoin(time: string, status: string, lat: string, ns: string, lon: string, ew: string,
                sog: string, cog: string, date: string)
    ensures "GPRMC," + time + "," + status + "," + lat + "," + ns + "," + lon + "," + ew + ","
            + sog + "," + cog + "," + date + ",," ==
            Join(["GPRMC", time, status, lat, ns, lon, ew, sog, cog, date, "", ""])
  {
    var l := ["GPRMC", time];
    assert Join(l) == "GPRMC," + time;
    var s := "GPRMC," + time;
    s, l := JoinStep(l, s, status);
    s, l := JoinStep(l, s, lat);
    s, l := JoinStep(l, s, ns);
    s, l := JoinStep(l, s, lon);
    s, l := JoinStep(l, s, ew);
    s, l := JoinStep(l, s, sog);
    s, l := JoinStep(l, s, cog);
    s, l := JoinStep(l, s, date);
    assert s + "," + "" + "," + "" == s + ",,";
    s, l := JoinStep(l, s, "");
    s, l := JoinStep(l, s, "");
    assert l == ["GPRMC", time, status, lat, ns, lon, ew, sog, cog, date, "", ""];
  }

  /** The GPGGA concatenation is the comma-join of its fifteen fields. */
  lemma GgaJoin(time: string, lat: string, ns: string, lon: string, ew: string, quality: string,
                sats: string, hdop: string, alt: string, altUnit: string, geoid: string,
                geoidUnit: string)
    ensures "GPGGA," + time + "," + lat + "," + ns + "," + lon + "," + ew + "," + quality + ","
            + sats + "," + hdop + "," + alt + "," + altUnit + "," + geoid + "," + geoidUnit
            + ",000.0,0000" ==
            Join(["GPGGA", time, lat, ns, lon, ew, quality, sats, hdop, alt, altUnit, geoid,
                  geoidUnit, "000.0", "0000"])
  {
    var l := ["GPGGA", time];
    assert Join(l) == "GPGGA," + time;
    var s := "GPGGA," + time;
    s, l := JoinStep(l, s, lat);
    s, l := JoinStep(l, s, ns);
    s, l := JoinStep(l, s, lon);
    s, l := JoinStep(l, s, ew);
    s, l := JoinStep(l, s, quality);
    s, l := JoinStep(l, s, sats);
    s, l := JoinStep(l, s, hdop);
    s, l := JoinStep(l, s, alt);
    s, l := JoinStep(l, s, altUnit);
    s, l := JoinStep(l, s, geoid);
    s, l := JoinStep(l, s, geoidUnit);
    assert s + "," + "000.0" + "," + "0000" == s + ",000.0,0000";
    s, l := JoinStep(l, s, "000.0");
    s, l := JoinStep(l, s, "0000");
    assert l == ["GPGGA", time, lat, ns, lon, ew, quality, sats, hdop, alt, altUnit, geoid,
                 geoidUnit, "000.0", "0000"];
  }

  /** Appending a comma and one more field to a joined text joins one more
      field. */
  lemma JoinStep(laid: seq<string>, s: string, f: string) returns (s': string, laid': seq<string>)
    requires |laid| >= 1 && s == Join(laid)
    ensures s' == s + "," + f && laid' == laid + [f] && s' == Join(laid')
  {
    JoinSnoc(laid, f);
    s', laid' := s + "," + f, laid + [f];
  }

  /** Joining one more field adds a comma and the field. */
  lemma {:induction false} JoinSnoc(fields: seq<string>, f: string)
    requires |fields| >= 1
    ensures Join(fields + [f]) == Join(fields) + "," + f
  {
    if |fields| > 1 {
      assert (fields + [f])[1..] == fields[1..] + [f];
      JoinSnoc(fields[1..], f);
    }
  }
}
