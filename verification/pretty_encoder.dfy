/**
  encode_pretty: pretty text (or plain ASCII) back to bytes.  The loop is a
  per-character state machine; its checks run in a fixed order: the
  character swallowed after a continuation marker, the marker itself, the
  line-end characters, the escape prefix, an escape digit, the tab arrow,
  and finally the inverse table.
*/
module PrettyEncoder {
  import opened Basics
  import opened GlyphTable

  /** The characters the encoder treats as a line end: CR, LF and their two glyphs. */
  predicate IsNewlineChar(c: char) {
    c == '\r' || c == '\n' || c == '\U{240D}' || c == '\U{240A}'
  }

  /**
    The line-end characters are exactly the characters the inverse table
    reads as CR or LF: the two ASCII controls and their display glyphs.
  */
  lemma {:induction false} NewlineCharsAreLineEnds(c: char)
    ensures IsNewlineChar(c) <==> CharToByte(c) == Some(0x0A) || CharToByte(c) == Some(0x0D)
  {
  }

  /**
    A character an open capture buffers: one that none of the earlier checks
    (the continuation marker, the line ends, the prefix) takes first.
  */
  predicate Buffered(cfg: Config, c: char) {
    c != cfg.newline && !IsNewlineChar(c) && c != cfg.bytestring
  }

  /**
    The loop variables of encode_pretty: skip_next, skip_newlines,
    escape_count and escape_buffer.
  */
  datatype EncState = EncState(skipNext: bool, skipNewlines: bool, escapeCount: nat, escapeBuffer: string)

  /** The state before the first character. */
  const Init: EncState := EncState(false, false, 0, "")

  /**
    The capture bookkeeping the loop keeps: at most two digits are awaited,
    and the buffer holds the digits taken since the prefix.
  */
  predicate ValidState(st: EncState) {
    && st.escapeCount <= 2
    && |st.escapeBuffer| == (if st.escapeCount == 0 then 0 else 2 - st.escapeCount)
  }

  /** The three ways encode_pretty fails, each with the position where it arises. */
  datatype EncodeError =
      /** A prefix while a capture is open (UnicodeEncodeError over start..end). */
    | InvalidEscapeChar(start: int, end: int, buffer: string)
      /** The two captured characters are not both hex digits (`int(buffer, 16)` fails). */
    | InvalidHexDigits(index: nat, buffer: string)
      /** A character with no inverse-table entry (KeyError). */
    | Unmapped(index: nat, c: char)

  /** The state after a step and the bytes it emitted. */
  datatype Emit = Emit(state: EncState, out: seq<byte>)

  /** One iteration of the loop, on character `c` at index `i`. */
  function Step(cfg: Config, st: EncState, i: nat, c: char): (r: Result<Emit, EncodeError>)
    requires ValidState(st)
    ensures r.Ok? ==> ValidState(r.value.state) && |r.value.out| <= 1
    ensures r.Ok? && |r.value.out| == 1 ==> !st.skipNext && c != cfg.newline
  {
    if st.skipNext then Ok(Emit(st.(skipNext := false), []))
    else if c == cfg.newline then Ok(Emit(st.(skipNext := true), []))
    else if IsNewlineChar(c) then
      if !st.skipNewlines then Ok(Emit(st.(skipNewlines := true), [0x0A]))
      else Ok(Emit(st, []))
    else
      var st := st.(skipNewlines := false);
      if c == cfg.bytestring then
        if st.escapeCount > 0 then
          Err(InvalidEscapeChar(i - |st.escapeBuffer| - 1, i + 1, st.escapeBuffer))
        else
          Ok(Emit(st.(escapeCount := 2), []))
      else if st.escapeCount > 0 then
        var buffer := st.escapeBuffer + [c];
        if st.escapeCount == 1 then
          match ParseHexPair(buffer[0], buffer[1])
          case None => Err(InvalidHexDigits(i, buffer))
          case Some(v) => Ok(Emit(st.(escapeCount := 0, escapeBuffer := ""), [v]))
        else
          Ok(Emit(st.(escapeCount := 1, escapeBuffer := buffer), []))
      else if c == TabArrow then Ok(Emit(st, []))
      else
        match CharToByte(c)
        case None => Err(Unmapped(i, c))
        case Some(b) => Ok(Emit(st, [b]))
  }

  /** Puts `out` in front of the bytes of a successful result. */
  function Prefix(out: seq<byte>, r: Result<Emit, EncodeError>): Result<Emit, EncodeError> {
    match r
    case Ok(e) => Ok(Emit(e.state, out + e.out))
    case Err(x) => Err(x)
  }

  /** One iteration of the loop as a value: what the run needs of Step, and nothing more. */
  type StepFn = (EncState, nat, char) --> Result<Emit, EncodeError>

  /** From a consistent state the step is defined, keeps the state consistent and emits at most a byte. */
  ghost predicate StepContract(step: StepFn) {
    forall st: EncState, i: nat, c: char :: ValidState(st) ==>
      && step.requires(st, i, c)
      && (step(st, i, c).Ok? ==> ValidState(step(st, i, c).value.state) && |step(st, i, c).value.out| <= 1)
  }

  function StepOf(cfg: Config): StepFn {
    (st: EncState, i: nat, c: char) requires ValidState(st) => Step(cfg, st, i, c)
  }

  lemma {:induction false} StepOfContract(cfg: Config)
    ensures StepContract(StepOf(cfg))
  {
  }

  /**
    The loop over `s` from state `st` with iteration `step`, where `s[0]`
    sits at index `base` of the whole input.  The first failing character
    ends the run.
  */
  function RunWith(step: StepFn, st: EncState, s: string, base: nat): (r: Result<Emit, EncodeError>)
    requires StepContract(step) && ValidState(st)
    ensures r.Ok? ==> ValidState(r.value.state) && |r.value.out| <= |s|
    decreases |s|
  {
    if |s| == 0 then Ok(Emit(st, []))
    else
      match step(st, base, s[0])
      case Err(x) => Err(x)
      case Ok(e) => Prefix(e.out, RunWith(step, e.state, s[1..], base + 1))
  }

  /** The loop of encode_pretty over `s` from state `st`, `s[0]` at index `base`. */
  function Run(cfg: Config, st: EncState, s: string, base: nat): (r: Result<Emit, EncodeError>)
    requires ValidState(st)
    ensures r.Ok? ==> ValidState(r.value.state) && |r.value.out| <= |s|
  {
    StepOfContract(cfg);
    RunWith(StepOf(cfg), st, s, base)
  }

  /** encode_pretty(data): the loop's bytes; the state left at the end is dropped. */
  function Encode(cfg: Config, data: string): (r: Result<seq<byte>, EncodeError>)
    ensures r.Ok? ==> |r.value| <= |data|
  {
    match Run(cfg, Init, data, 0)
    case Ok(e) => Ok(e.out)
    case Err(x) => Err(x)
  }

  /** encode_pretty as written: one pass, stopping at the first failure. */
  method EncodePretty(cfg: Config, data: string) returns (r: Result<seq<byte>, EncodeError>)
    ensures r == Encode(cfg, data)
  {
    var out: seq<byte> := [];
    var st := Init;
    var i := 0;
    assert data[0..] == data;
    PrefixNil(Run(cfg, Init, data, 0));
    while i < |data|
      invariant 0 <= i <= |data|
      invariant ValidState(st)
      invariant Run(cfg, Init, data, 0) == Prefix(out, Run(cfg, st, data[i..], i))
    {
      assert data[i..][1..] == data[i + 1..];
      var step := Step(cfg, st, i, data[i]);
      match step
      case Err(x) =>
        return Err(x);
      case Ok(e) =>
        PrefixPrefix(out, e.out, Run(cfg, e.state, data[i + 1..], i + 1));
        out := out + e.out;
        st := e.state;
      i := i + 1;
    }
    assert data[i..] == [];
    assert out + [] == out;
    r := Ok(out);
  }

  lemma {:induction false} PrefixNil(r: Result<Emit, EncodeError>)
    ensures Prefix([], r) == r
  {
    if r.Ok? {
      assert [] + r.value.out == r.value.out;
    }
  }

  lemma {:induction false} PrefixPrefix(a: seq<byte>, b: seq<byte>, r: Result<Emit, EncodeError>)
    ensures Prefix(a, Prefix(b, r)) == Prefix(a + b, r)
  {
    if r.Ok? {
      assert a + (b + r.value.out) == (a + b) + r.value.out;
    }
  }

  /** Continues a result over `s` from index `base`, when it has not failed. */
  function Then(cfg: Config, r: Result<Emit, EncodeError>, s: string, base: nat): Result<Emit, EncodeError>
    requires r.Ok? ==> ValidState(r.value.state)
  {
    match r
    case Err(x) => Err(x)
    case Ok(e) => Prefix(e.out, Run(cfg, e.state, s, base))
  }

  /** Then, for any iteration. */
  function ThenWith(step: StepFn, r: Result<Emit, EncodeError>, s: string, base: nat): Result<Emit, EncodeError>
    requires StepContract(step) && (r.Ok? ==> ValidState(r.value.state))
  {
    match r
    case Err(x) => Err(x)
    case Ok(e) => Prefix(e.out, RunWith(step, e.state, s, base))
  }

  /** One character off the front of a run. */
  lemma {:induction false} RunCons(cfg: Config, st: EncState, s: string, base: nat)
    requires ValidState(st) && |s| > 0
    ensures Run(cfg, st, s, base) == Then(cfg, Step(cfg, st, base, s[0]), s[1..], base + 1)
  {
  }

  /** A run over nothing emits nothing and keeps the state. */
  lemma {:induction false} RunOneThenNothing(cfg: Config, st: EncState, c: char, base: nat)
    requires ValidState(st)
    ensures Run(cfg, st, [c], base) == Then(cfg, Step(cfg, st, base, c), [], base + 1)
    ensures Step(cfg, st, base, c).Ok? ==>
      Run(cfg, st, [c], base) == Ok(Step(cfg, st, base, c).value)
  {
    RunCons(cfg, st, [c], base);
    assert [c][1..] == [];
    var r := Step(cfg, st, base, c);
    if r.Ok? {
      assert r.value.out + [] == r.value.out;
    }
  }

  /**
    Gluing step for RunWithAppend: if splitting holds from the state `r`
    leaves (the hypothesis), continuing `r` over `t1 + s2` is continuing it
    over `t1`, then over `s2`.
  */
  lemma {:induction false} ThenAppend(step: StepFn, r: Result<Emit, EncodeError>, t1: string, s2: string, base: nat)
    requires StepContract(step) && (r.Ok? ==> ValidState(r.value.state))
    requires r.Ok? ==> RunWith(step, r.value.state, t1 + s2, base)
                       == ThenWith(step, RunWith(step, r.value.state, t1, base), s2, base + |t1|)
    ensures ThenWith(step, r, t1 + s2, base) == ThenWith(step, ThenWith(step, r, t1, base), s2, base + |t1|)
  {
    if r.Ok? {
      var r1 := RunWith(step, r.value.state, t1, base);
      if r1.Ok? {
        PrefixPrefix(r.value.out, r1.value.out, RunWith(step, r1.value.state, s2, base + |t1|));
      }
    }
  }

  /** For any iteration, running over `s1 + s2` is running over `s1`, then over `s2`. */
  lemma {:induction false} RunWithAppend(step: StepFn, st: EncState, s1: string, s2: string, base: nat)
    requires StepContract(step) && ValidState(st)
    ensures RunWith(step, st, s1 + s2, base) == ThenWith(step, RunWith(step, st, s1, base), s2, base + |s1|)
    decreases |s1|
  {
    if |s1| == 0 {
      assert s1 + s2 == s2;
      PrefixNil(RunWith(step, st, s2, base));
    } else {
      var r0 := step(st, base, s1[0]);
      FirstOfAppend(s1, s2);
      if r0.Ok? {
        RunWithAppend(step, r0.value.state, s1[1..], s2, base + 1);
      }
      ThenAppend(step, r0, s1[1..], s2, base + 1);
    }
  }

  /** Running over `s1 + s2` is running over `s1`, then over `s2` from where it stopped. */
  lemma {:induction false} RunAppend(cfg: Config, st: EncState, s1: string, s2: string, base: nat)
    requires ValidState(st)
    ensures Run(cfg, st, s1 + s2, base) == Then(cfg, Run(cfg, st, s1, base), s2, base + |s1|)
  {
    StepOfContract(cfg);
    RunWithAppend(StepOf(cfg), st, s1, s2, base);
  }

  /** Two successful runs chain: the bytes are concatenated and the second run's state is kept. */
  lemma {:induction false} RunAppendOk(cfg: Config, st: EncState, s1: string, s2: string, base: nat, mid: EncState, o1: seq<byte>, last: Emit)
    requires ValidState(st)
    requires Run(cfg, st, s1, base) == Ok(Emit(mid, o1))
    requires Run(cfg, mid, s2, base + |s1|) == Ok(last)
    ensures Run(cfg, st, s1 + s2, base) == Ok(Emit(last.state, o1 + last.out))
  {
    RunAppend(cfg, st, s1, s2, base);
  }

  /** Plain ASCII without CR or LF: each character becomes its own byte. */
  lemma {:induction false} AsciiRun(cfg: Config, s: string, base: nat)
    requires Valid(cfg)
    requires forall k :: 0 <= k < |s| ==> IsAscii(s[k]) && s[k] != '\r' && s[k] != '\n'
    ensures Run(cfg, Init, s, base) == Ok(Emit(Init, AsciiBytes(s)))
    decreases |s|
  {
    if |s| > 0 {
      AsciiRun(cfg, s[1..], base + 1);
    }
  }

  /**
    For a string of ASCII characters with no CR or LF, encode_pretty
    returns exactly its ASCII bytes.
  */
  lemma {:induction false} EncodeAscii(cfg: Config, s: string)
    requires Valid(cfg)
    requires forall k :: 0 <= k < |s| ==> IsAscii(s[k]) && s[k] != '\r' && s[k] != '\n'
    ensures Encode(cfg, s) == Ok(AsciiBytes(s))
  {
    AsciiRun(cfg, s, 0);
  }

  /**
    An uninterrupted run of CR, LF, ␍ and ␊ emits one 0x0A, or nothing if
    a line end was already being suppressed, and leaves suppression on.
  */
  lemma {:induction false} NewlineRunEmitsOneLineFeed(cfg: Config, st: EncState, s: string, base: nat)
    requires Valid(cfg) && ValidState(st) && !st.skipNext
    requires |s| > 0
    requires forall k :: 0 <= k < |s| ==> IsNewlineChar(s[k])
    ensures Run(cfg, st, s, base)
         == Ok(Emit(st.(skipNewlines := true), if st.skipNewlines then [] else [0x0A]))
    decreases |s|
  {
    var st1 := st.(skipNewlines := true);
    assert Step(cfg, st, base, s[0]) == Ok(Emit(st1, if st.skipNewlines then [] else [0x0A]));
    var out0: seq<byte> := if st.skipNewlines then [] else [0x0A];
    assert out0 + [] == out0;
    RunCons(cfg, st, s, base);
    if |s| > 1 {
      NewlineRunEmitsOneLineFeed(cfg, st1, s[1..], base + 1);
      assert st1.(skipNewlines := true) == st1;
    }
  }

  /**
    The continuation marker drops itself and the character after it,
    whatever that is, and leaves every other part of the state (line-end
    suppression included) as it was.
  */
  lemma {:induction false} ContinuationSkipsNext(cfg: Config, st: EncState, x: char, rest: string, base: nat)
    requires ValidState(st) && !st.skipNext
    ensures Run(cfg, st, [cfg.newline, x] + rest, base) == Run(cfg, st, rest, base + 2)
  {
    var s := [cfg.newline, x] + rest;
    var st1 := st.(skipNext := true);
    assert s[1..][1..] == rest;
    assert s[1..][0] == x;
    assert st1.(skipNext := false) == st;
    RunCons(cfg, st, s, base);
    RunCons(cfg, st1, s[1..], base + 1);
    PrefixNil(Run(cfg, st, rest, base + 2));
    PrefixNil(Prefix([], Run(cfg, st, rest, base + 2)));
  }

  /** A character swallowed after the marker does not reset line-end suppression. */
  lemma {:induction false} SwallowedCharKeepsSuppression(cfg: Config, st: EncState, i: nat, c: char)
    requires ValidState(st) && st.skipNext
    ensures Step(cfg, st, i, c) == Ok(Emit(st.(skipNext := false), []))
  {
  }

  /**
    Any other character that gets past the line-end check turns suppression
    off, so the next line end emits a byte again.
  */
  lemma {:induction false} OtherCharResetsSuppression(cfg: Config, st: EncState, i: nat, c: char)
    requires ValidState(st) && !st.skipNext && c != cfg.newline && !IsNewlineChar(c)
    requires Step(cfg, st, i, c).Ok?
    ensures !Step(cfg, st, i, c).value.state.skipNewlines
  {
  }

  /** The prefix and two hex digits of either case emit the single byte they spell. */
  lemma {:induction false} EscapePairEmitsByte(cfg: Config, st: EncState, d1: char, d2: char, base: nat)
    requires Valid(cfg) && ValidState(st) && !st.skipNext && st.escapeCount == 0
    requires HexDigitValue(d1).Some? && HexDigitValue(d2).Some?
    ensures Run(cfg, st, [cfg.bytestring, d1, d2], base)
         == Ok(Emit(st.(skipNewlines := false), [16 * HexDigitValue(d1).value + HexDigitValue(d2).value]))
  {
    var s := [cfg.bytestring, d1, d2];
    var v := 16 * HexDigitValue(d1).value + HexDigitValue(d2).value;
    var st1 := st.(skipNewlines := false, escapeCount := 2);
    var st2 := st1.(skipNewlines := false, escapeCount := 1, escapeBuffer := [d1]);
    assert [d1] + [d2] == [d1, d2];
    assert Step(cfg, st2, base + 2, d2) == Ok(Emit(st.(skipNewlines := false), [v]));
    RunOneThenNothing(cfg, st2, d2, base + 2);
    CaptureDigit(cfg, st1, base + 1, d1);
    RunCons(cfg, st1, [d1, d2], base + 1);
    assert [d1, d2][1..] == [d2];
    PrefixNil(Run(cfg, st2, [d2], base + 2));
    RunCons(cfg, st, s, base);
    assert s[1..] == [d1, d2];
    assert Step(cfg, st, base, cfg.bytestring) == Ok(Emit(st1, []));
    PrefixNil(Run(cfg, st1, [d1, d2], base + 1));
  }

  /** The first character after a prefix is buffered, digit or not. */
  lemma {:induction false} CaptureDigit(cfg: Config, st: EncState, i: nat, d: char)
    requires Valid(cfg) && ValidState(st) && !st.skipNext && st.escapeCount == 2
    requires Buffered(cfg, d)
    ensures Step(cfg, st, i, d) == Ok(Emit(st.(skipNewlines := false, escapeCount := 1, escapeBuffer := [d]), []))
  {
    assert st.escapeBuffer + [d] == [d];
  }

  /**
    If the two buffered characters after the prefix are not both hex
    digits, the capture fails at the second one.
  */
  lemma {:induction false} EscapeBadDigitsFail(cfg: Config, st: EncState, d1: char, d2: char, base: nat)
    requires Valid(cfg) && ValidState(st) && !st.skipNext && st.escapeCount == 0
    requires Buffered(cfg, d1) && Buffered(cfg, d2)
    requires HexDigitValue(d1).None? || HexDigitValue(d2).None?
    ensures Run(cfg, st, [cfg.bytestring, d1, d2], base) == Err(InvalidHexDigits(base + 2, [d1, d2]))
  {
    var s := [cfg.bytestring, d1, d2];
    var st1 := st.(skipNewlines := false, escapeCount := 2);
    var st2 := st1.(escapeCount := 1, escapeBuffer := [d1]);
    assert st1.escapeBuffer + [d1] == [d1];
    assert Step(cfg, st1, base + 1, d1) == Ok(Emit(st2, []));
    assert [d1] + [d2] == [d1, d2];
    assert Step(cfg, st2, base + 2, d2) == Err(InvalidHexDigits(base + 2, [d1, d2]));
    RunOneThenNothing(cfg, st2, d2, base + 2);
    RunCons(cfg, st1, [d1, d2], base + 1);
    assert [d1, d2][1..] == [d2];
    RunCons(cfg, st, s, base);
    assert s[1..] == [d1, d2];
    assert Step(cfg, st, base, cfg.bytestring) == Ok(Emit(st1, []));
  }

  /**
    A prefix while a capture is open fails; the reported range starts
    |buffer| + 1 characters back and ends just after the second prefix.
  */
  lemma {:induction false} PrefixInsideEscapeFails(cfg: Config, st: EncState, i: nat)
    requires ValidState(st) && !st.skipNext && st.escapeCount > 0
    requires cfg.bytestring != cfg.newline && !IsNewlineChar(cfg.bytestring)
    ensures Step(cfg, st, i, cfg.bytestring)
         == Err(InvalidEscapeChar(i - |st.escapeBuffer| - 1, i + 1, st.escapeBuffer))
  {
  }

  /**
    A prefix, at most one hex digit, then another prefix: the failure's
    range starts at the first prefix and ends after the second.
  */
  lemma {:induction false} DoublePrefixFails(cfg: Config, st: EncState, ds: string, base: nat)
    requires Valid(cfg) && ValidState(st) && !st.skipNext && st.escapeCount == 0
    requires |ds| <= 1 && forall k :: 0 <= k < |ds| ==> Buffered(cfg, ds[k])
    ensures Run(cfg, st, [cfg.bytestring] + ds + [cfg.bytestring], base)
         == Err(InvalidEscapeChar(base, base + |ds| + 2, ds))
  {
    var p := cfg.bytestring;
    var s := [p] + ds + [p];
    var st1 := st.(skipNewlines := false, escapeCount := 2);
    assert Step(cfg, st, base, p) == Ok(Emit(st1, []));
    RunCons(cfg, st, s, base);
    if |ds| == 0 {
      assert s[1..] == [p];
      RunOneThenNothing(cfg, st1, p, base + 1);
    } else {
      var d := ds[0];
      assert [d] == ds;
      assert s[1..] == [d, p] && s[1..][1..] == [p];
      var st2 := st1.(skipNewlines := false, escapeCount := 1, escapeBuffer := [d]);
      CaptureDigit(cfg, st1, base + 1, d);
      RunCons(cfg, st1, [d, p], base + 1);
      RunOneThenNothing(cfg, st2, p, base + 2);
    }
  }

  /** A prefix and at most one buffered character emit nothing and leave a capture open. */
  lemma {:induction false} OpenCaptureEmitsNothing(cfg: Config, st: EncState, ds: string, base: nat)
    requires Valid(cfg) && ValidState(st) && !st.skipNext && st.escapeCount == 0
    requires |ds| <= 1 && forall k :: 0 <= k < |ds| ==> Buffered(cfg, ds[k])
    ensures Run(cfg, st, [cfg.bytestring] + ds, base).Ok?
    ensures Run(cfg, st, [cfg.bytestring] + ds, base).value.out == []
  {
    var t := [cfg.bytestring] + ds;
    var st1 := st.(skipNewlines := false, escapeCount := 2);
    assert Step(cfg, st, base, cfg.bytestring) == Ok(Emit(st1, []));
    RunCons(cfg, st, t, base);
    if |ds| == 0 {
      assert t[1..] == [];
    } else {
      assert t[1..] == ds && ds == [ds[0]];
      CaptureDigit(cfg, st1, base + 1, ds[0]);
      RunOneThenNothing(cfg, st1, ds[0], base + 1);
    }
    PrefixNil(Run(cfg, st1, t[1..], base + 1));
  }

  /**
    A capture still open at the end of the input emits nothing and raises
    no error, whatever the buffered character is: `int()` only runs once
    the second one arrives, so the prefix and up to one character are lost.
  */
  lemma {:induction false} UnfinishedEscapeIsDropped(cfg: Config, s: string, ds: string)
    requires Valid(cfg)
    requires Run(cfg, Init, s, 0).Ok?
    requires !Run(cfg, Init, s, 0).value.state.skipNext && Run(cfg, Init, s, 0).value.state.escapeCount == 0
    requires |ds| <= 1 && forall k :: 0 <= k < |ds| ==> Buffered(cfg, ds[k])
    ensures Encode(cfg, s + ([cfg.bytestring] + ds)) == Ok(Run(cfg, Init, s, 0).value.out)
  {
    var e := Run(cfg, Init, s, 0).value;
    RunAppend(cfg, Init, s, [cfg.bytestring] + ds, 0);
    OpenCaptureEmitsNothing(cfg, e.state, ds, |s|);
    assert e.out + [] == e.out;
  }

  /** The tab arrow outside a capture is dropped; it only turns suppression off. */
  lemma {:induction false} TabArrowDropped(cfg: Config, st: EncState, rest: string, base: nat)
    requires Valid(cfg) && ValidState(st) && !st.skipNext && st.escapeCount == 0
    ensures Run(cfg, st, [TabArrow] + rest, base) == Run(cfg, st.(skipNewlines := false), rest, base + 1)
  {
    assert ([TabArrow] + rest)[1..] == rest;
    var r := Run(cfg, st.(skipNewlines := false), rest, base + 1);
    if r.Ok? {
      assert [] + r.value.out == r.value.out;
    }
  }

  /**
    Any other character outside a capture that has no inverse-table entry
    fails at its own index.  (CharToByte has no entry for exactly the
    characters that are not keys of char_to_bytes, by
    CharToBytesMatchesCharToByte.)
  */
  lemma {:induction false} UnmappedCharFails(cfg: Config, st: EncState, c: char, rest: string, base: nat)
    requires Valid(cfg) && ValidState(st) && !st.skipNext && st.escapeCount == 0
    requires c != cfg.newline && !IsNewlineChar(c) && c != cfg.bytestring && c != TabArrow
    requires CharToByte(c).None?
    ensures Run(cfg, st, [c] + rest, base) == Err(Unmapped(base, c))
  {
    RunCons(cfg, st, [c] + rest, base);
  }

  /** The Python exception a caller of encode_pretty receives. */
  datatype Raised =
    | UnicodeEncodeErrorRaised(start: int, end: int)
    | TypeErrorRaised
    | ValueErrorRaised
    | KeyErrorRaised(c: char)

  /**
    The exception as the code builds it.  The prefix-inside-escape raise
    passes the constructor's arguments by keyword (`__encoding=`, `__start=`
    and so on); UnicodeEncodeError takes positional arguments only, so
    building it raises TypeError instead and the range never reaches the
    caller.
  */
  function RaisedAsWritten(e: EncodeError): (x: Raised)
    ensures e.InvalidEscapeChar? <==> x.TypeErrorRaised?
    ensures !x.UnicodeEncodeErrorRaised?
  {
    match e
    case InvalidEscapeChar(_, _, _) => TypeErrorRaised
    case InvalidHexDigits(_, _) => ValueErrorRaised
    case Unmapped(_, c) => KeyErrorRaised(c)
  }

  /**
    The exception the code evidently means: a UnicodeEncodeError over the
    reported range, the other failures unchanged.
  */
  function RaisedIntended(e: EncodeError): (x: Raised)
    ensures e.InvalidEscapeChar? <==> x.UnicodeEncodeErrorRaised?
    ensures e.InvalidEscapeChar? ==> x.start == e.start && x.end == e.end
    ensures !e.InvalidEscapeChar? ==> x == RaisedAsWritten(e)
  {
    match e
    case InvalidEscapeChar(start, end, _) => UnicodeEncodeErrorRaised(start, end)
    case _ => RaisedAsWritten(e)
  }

  /**
    Two prefixes in a row: the encoder fails over characters 0..2, but as
    written the caller receives a TypeError without that range.
  */
  lemma {:induction false} DoublePrefixRaisesTypeError(cfg: Config)
    requires Valid(cfg)
    ensures Encode(cfg, [cfg.bytestring, cfg.bytestring]).Err?
    ensures RaisedAsWritten(Encode(cfg, [cfg.bytestring, cfg.bytestring]).error) == TypeErrorRaised
  {
    DoublePrefixFails(cfg, Init, [], 0);
    assert [cfg.bytestring] + [] + [cfg.bytestring] == [cfg.bytestring, cfg.bytestring];
  }

  /**
    With the intended raise, a prefix inside an open escape reaches the
    caller as a UnicodeEncodeError whose range covers the first prefix, the
    buffered characters and the second prefix.
  */
  lemma {:induction false} DoublePrefixRaisesRange(cfg: Config, ds: string)
    requires Valid(cfg)
    requires |ds| <= 1 && forall k :: 0 <= k < |ds| ==> Buffered(cfg, ds[k])
    ensures Encode(cfg, [cfg.bytestring] + ds + [cfg.bytestring]).Err?
    ensures RaisedIntended(Encode(cfg, [cfg.bytestring] + ds + [cfg.bytestring]).error)
         == UnicodeEncodeErrorRaised(0, |[cfg.bytestring] + ds + [cfg.bytestring]|)
  {
    DoublePrefixFails(cfg, Init, ds, 0);
  }
}
