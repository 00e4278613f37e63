/**
 * The command-line helpers of `src/main.rs`: the `WIDTHxHEIGHT` size parser behind `--size`,
 * the environment-flag predicate, the quit handler's teardown, and the choice that the
 * decoder's pad-added callback makes for each new pad.
 */
module Cli {
  import opened Wrappers
  import opened Primitives
  import opened Ascii
  import TerminalSink

  /* ---------- decimal u16 text ---------- */

  predicate IsDigit(c: char) {
    '0' <= c <= '9'
  }

  predicate AllDigits(s: string) {
    forall k | 0 <= k < |s| :: IsDigit(s[k])
  }

  function DigitValue(c: char): (d: nat)
    requires IsDigit(c)
    ensures d < 10
  {
    (c - '0') as nat
  }

  function DigitChar(d: nat): (c: char)
    requires d < 10
    ensures IsDigit(c) && DigitValue(c) == d
  {
    ('0' as int + d) as char
  }

  /** The number a string of decimal digits denotes, most significant digit first. */
  function DigitsValue(s: string): nat
    requires AllDigits(s)
  {
    if s == [] then 0 else DigitsValue(s[..|s| - 1]) * 10 + DigitValue(s[|s| - 1])
  }

  /** The digits `u16::from_str` reads: one leading `+` is allowed and skipped. */
  function Unsigned(s: string): (t: string)
    ensures |t| <= |s| && t == s[|s| - |t|..]
    ensures s != [] && s[0] == '+' ==> t == s[1..]
  {
    if s != [] && s[0] == '+' then s[1..] else s
  }

  /**
   * `str::parse::<u16>`: decimal digits after an optional `+`, at least one of them, and a
   * value that fits in 16 bits.  The error kind is not kept, since `from_str` discards it.
   */
  function ParseU16(s: string): (r: Option<u16>)
    ensures s == [] || s == "+" ==> r.None?
    ensures !AllDigits(Unsigned(s)) ==> r.None?
    ensures AllDigits(Unsigned(s)) && DigitsValue(Unsigned(s)) > U16_MAX ==> r.None?
    ensures r.Some? ==> Unsigned(s) != [] && AllDigits(Unsigned(s)) && r.value == DigitsValue(Unsigned(s))
    ensures Unsigned(s) != [] && AllDigits(Unsigned(s)) && DigitsValue(Unsigned(s)) <= U16_MAX ==>
      r == Some(DigitsValue(Unsigned(s)))
  {
    var digits := Unsigned(s);
    if digits == [] || !AllDigits(digits) then None
    else
      var v := DigitsValue(digits);
      if v <= U16_MAX then Some(v) else None
  }

  /** `format!("{n}")`: the decimal digits of `n`, without leading zeros. */
  function ToDecimal(n: nat): (s: string)
    ensures s != [] && AllDigits(s)
    ensures |s| > 1 ==> s[0] != '0'
  {
    if n < 10 then [DigitChar(n)] else ToDecimal(n / 10) + [DigitChar(n % 10)]
  }

  /** Reading the digits back gives the number. */
  lemma {:induction false} ToDecimalValue(n: nat)
    ensures DigitsValue(ToDecimal(n)) == n
  {
    var s := ToDecimal(n);
    if n >= 10 {
      ToDecimalValue(n / 10);
      assert s[..|s| - 1] == ToDecimal(n / 10);
      assert s[|s| - 1] == DigitChar(n % 10);
    } else {
      assert s[..0] == [];
    }
  }

  /** Every `u16` printed in decimal parses back to itself, with or without a leading `+`. */
  lemma ParseU16RoundTrip(n: u16)
    ensures ParseU16(ToDecimal(n)) == Some(n)
    ensures ParseU16("+" + ToDecimal(n)) == Some(n)
  {
    ToDecimalValue(n);
    var s := ToDecimal(n);
    assert s[0] != '+';
    assert ("+" + s)[1..] == s;
  }

  /** `z` zero digits. */
  function Zeros(z: nat): (s: string)
    ensures |s| == z && AllDigits(s)
  {
    seq(z, _ => '0')
  }

  lemma {:induction false} ZerosValue(z: nat)
    ensures DigitsValue(Zeros(z)) == 0
  {
    if z > 0 {
      ZerosValue(z - 1);
      assert Zeros(z)[..z - 1] == Zeros(z - 1);
    }
  }

  /** Leading zeros do not change the value of a digit string. */
  lemma {:induction false} LeadingZerosValue(z: nat, t: string)
    requires AllDigits(t)
    ensures AllDigits(Zeros(z) + t) && DigitsValue(Zeros(z) + t) == DigitsValue(t)
    decreases |t|
  {
    var u := Zeros(z) + t;
    assert forall k | 0 <= k < |u| :: u[k] == if k < z then '0' else t[k - z];
    if t == [] {
      assert u == Zeros(z);
      ZerosValue(z);
    } else {
      assert u[..|u| - 1] == Zeros(z) + t[..|t| - 1];
      LeadingZerosValue(z, t[..|t| - 1]);
      assert u[|u| - 1] == t[|t| - 1];
    }
  }

  /** Digit text that fits in 16 bits parses to its value, with or without a leading `+`. */
  lemma DigitsAccepted(t: string)
    requires t != [] && AllDigits(t) && DigitsValue(t) <= U16_MAX
    ensures ParseU16(t) == Some(DigitsValue(t)) && ParseU16("+" + t) == Some(DigitsValue(t))
  {
    assert IsDigit(t[0]);
    assert ("+" + t)[1..] == t;
  }

  /** `u16::from_str` accepts any number of leading zeros, with or without a leading `+`. */
  lemma LeadingZerosAccepted(z: nat, n: u16)
    ensures ParseU16(Zeros(z) + ToDecimal(n)) == Some(n)
    ensures ParseU16("+" + (Zeros(z) + ToDecimal(n))) == Some(n)
  {
    var s := Zeros(z) + ToDecimal(n);
    ToDecimalValue(n);
    LeadingZerosValue(z, ToDecimal(n));
    DigitsAccepted(s);
  }

  /* ---------- Size::from_str ---------- */

  /** The `Size` of `--size`. */
  datatype Size = Size(width: u16, height: u16)

  const FORM_ERROR: string := "size must be in the form {WIDTH}x{HEIGHT} (e.g. 800x600)"
  const WIDTH_ERROR: string := "width must be a positive integer"
  const HEIGHT_ERROR: string := "height must be a positive integer"

  /** The position of the first `c` in `s`. */
  function IndexOf(s: string, c: char): (r: Option<nat>)
    ensures r.None? <==> c !in s
    ensures r.Some? ==> r.value < |s| && s[r.value] == c && c !in s[..r.value]
  {
    if s == [] then None
    else if s[0] == c then Some(0)
    else
      match IndexOf(s[1..], c)
      case None => None
      case Some(i) =>
        assert s[..i + 1] == [s[0]] + s[1..][..i];
        Some(i + 1)
  }

  /** `str::split_once`: the text before the first `c` and the text after it. */
  function SplitOnce(s: string, c: char): (r: Option<(string, string)>)
    ensures r.None? <==> c !in s
    ensures r.Some? ==> s == r.value.0 + [c] + r.value.1 && c !in r.value.0
  {
    match IndexOf(s, c)
    case None => None
    case Some(i) =>
      assert s == s[..i] + [c] + s[i + 1..];
      Some((s[..i], s[i + 1..]))
  }

  /** `<Size as FromStr>::from_str` */
  function SizeFromStr(s: string): (r: Result<Size, string>)
    ensures r == Err(FORM_ERROR) <==> 'x' !in s
    ensures 'x' in s ==> var parts := SplitOnce(s, 'x').value;
      (r == Err(WIDTH_ERROR) <==> ParseU16(parts.0).None?) &&
      (r == Err(HEIGHT_ERROR) <==> ParseU16(parts.0).Some? && ParseU16(parts.1).None?) &&
      (r.Ok? <==> ParseU16(parts.0).Some? && ParseU16(parts.1).Some?) &&
      (r.Ok? ==> r.value == Size(ParseU16(parts.0).value, ParseU16(parts.1).value))
  {
    match SplitOnce(s, 'x')
    case None => Err(FORM_ERROR)
    case Some((w, h)) =>
      match ParseU16(w)
      case None => Err(WIDTH_ERROR)
      case Some(width) =>
        match ParseU16(h)
        case None => Err(HEIGHT_ERROR)
        case Some(height) => Ok(Size(width, height))
  }

  /** Round trip: `"{w}x{h}"` parses to `Size { width: w, height: h }` for every pair of `u16`s. */
  lemma SizeRoundTrip(w: u16, h: u16)
    ensures SizeFromStr(ToDecimal(w) + "x" + ToDecimal(h)) == Ok(Size(w, h))
  {
    var s := ToDecimal(w) + "x" + ToDecimal(h);
    var dw := ToDecimal(w);
    assert forall k | 0 <= k < |dw| :: s[k] == dw[k];
    assert s[|dw|] == 'x';
    assert 'x' !in dw;
    assert IndexOf(s, 'x') == Some(|dw|);
    assert s[..|dw|] == dw && s[|dw| + 1..] == ToDecimal(h);
    ParseU16RoundTrip(w);
    ParseU16RoundTrip(h);
  }

  /** The text `u16` parsing accepts holds no `x`. */
  lemma ParsedHasNoX(t: string)
    requires ParseU16(t).Some?
    ensures 'x' !in t
  {
    var d := Unsigned(t);
    assert AllDigits(d);
    assert forall k | 0 <= k < |d| :: d[k] != 'x';
    assert t == d || t == ['+'] + d;
  }

  /** A size that parses holds exactly one `x`: the height is digits and cannot hold a second one. */
  lemma ParsedSizeHasOneX(s: string)
    requires SizeFromStr(s).Ok?
    ensures multiset(s)['x'] == 1
  {
    var parts := SplitOnce(s, 'x').value;
    ParsedHasNoX(parts.1);
    assert multiset(parts.0)['x'] == 0 && multiset(parts.1)['x'] == 0;
    assert s == parts.0 + ['x'] + parts.1;
    assert multiset(s) == multiset(parts.0) + multiset(['x']) + multiset(parts.1);
  }

  /** `0x0` is accepted, although the error texts speak of positive integers: `u16` parsing takes zero. */
  lemma ZeroSizeIsAccepted()
    ensures SizeFromStr("0x0") == Ok(Size(0, 0))
  {
    assert "0x0"[0] != 'x';
    assert "0x0"[1..] == "x0";
    assert IndexOf("0x0", 'x') == Some(1);
    assert "0x0"[..1] == "0" && "0x0"[2..] == "0";
    assert DigitsValue("0") == 0 by {
      assert "0"[..0] == [];
    }
    assert Unsigned("0") == "0" && AllDigits("0");
    assert ParseU16("0") == Some(0);
    assert SplitOnce("0x0", 'x') == Some(("0", "0"));
  }

  /**
   * `--size 0x0` is accepted, so `render_sample` centres the one-pixel image that
   * `resize_dimensions` returns at its smallest in a terminal with no cells: the target
   * does not fit, and the wrapping offset puts it half the `u16` range away.
   */
  lemma ZeroSizeOffsetWraps()
    ensures SizeFromStr("0x0") == Ok(Size(0, 0))
    ensures var termSize, target := (0, 0), (1, 1);
      target.0 > termSize.0 && HalfUp(target.1) > termSize.1 &&
      TerminalSink.CentringOffsetAsWritten(termSize, target) == (32767, 32767)
    ensures TerminalSink.CentringOffsetSaturating((0, 0), (1, 1)) == (0, 0)
  {
    ZeroSizeIsAccepted();
    assert HalfUp(1) == 1 && SubU16(0, 1) == 65535;
  }

  /* ---------- flag ---------- */


  /**
   * `flag(name, default)` of `main.rs`, given the variable's value (`None` when unset): the
   * default when unset, otherwise whether the value, lower-cased and with ASCII whitespace
   * trimmed from both ends, is empty, `y` or `yes`.
   */
  function Flag(value: Option<seq<byte>>, default: bool): (r: bool)
    ensures value.None? ==> r == default
    ensures value.Some? ==> (r <==> Trim(value.value) == [] || Spells(Trim(value.value), TerminalSink.Y) ||
                                    Spells(Trim(value.value), TerminalSink.Yes))
    ensures value.Some? ==> ((forall k | 0 <= k < |value.value| :: IsSpace(value.value[k])) ==> r)
  {
    match value
    case None => default
    case Some(s) =>
      var trimmed := Trim(LowerBytes(s));
      TerminalSink.WordsAreLower();
      TrimmedLowerSpells(s, TerminalSink.Y);
      TrimmedLowerSpells(s, TerminalSink.Yes);
      trimmed == [] || trimmed == TerminalSink.Y || trimmed == TerminalSink.Yes
  }

  /** Trimming the lower-cased value leaves a lower-case word exactly when the trimmed value spells it. */
  lemma TrimmedLowerSpells(s: seq<byte>, word: seq<byte>)
    requires forall k | 0 <= k < |word| :: IsLower(word[k])
    ensures Trim(LowerBytes(s)) == word <==> Spells(Trim(s), word)
    ensures Trim(LowerBytes(s)) == [] <==> Trim(s) == []
  {
    TrimLower(s);
    LowerBytesEqualsIff(Trim(s), word);
  }

  /** `flag` in `main.rs` accepts every value the one in `terminal_sink/mod.rs` accepts. */
  lemma FlagAcceptsMore(value: seq<byte>, default: bool)
    ensures TerminalSink.Flag(Some(value), default) ==> Flag(Some(value), default)
  {
    if TerminalSink.Flag(Some(value), default) {
      assert |value| > 0;
      assert !IsSpace(value[0]) && !IsSpace(value[|value| - 1]);
      assert TrimStart(value) == value;
      assert TrimEnd(value) == value;
    }
  }

  /** It also accepts the empty value, which the one in `terminal_sink/mod.rs` takes as false. */
  lemma FlagEmptyValue(default: bool)
    ensures !TerminalSink.Flag(Some([]), default) && Flag(Some([]), default)
  {
    assert TrimEnd(TrimStart([])) == [];
  }

  /** Trimming ` y` leaves `y`. */
  lemma SpacedYTrims()
    ensures Trim([0x20, 0x79]) == TerminalSink.Y
  {
    var spaced: seq<byte> := [0x20, 0x79];
    var y := TerminalSink.Y;
    assert IsSpace(spaced[0]) && !IsSpace(y[0]);
    assert spaced[1..] == y;
    calc {
      Trim(spaced);
      TrimEnd(TrimStart(spaced));
      TrimEnd(TrimStart(y));
      TrimEnd(y);
      y;
    }
  }

  /** And whitespace around its word: ` y` is true for `main.rs` and false for `terminal_sink/mod.rs`. */
  lemma FlagSpacedValue(default: bool)
    ensures !TerminalSink.Flag(Some([0x20, 0x79]), default) && Flag(Some([0x20, 0x79]), default)
  {
    var spaced: seq<byte> := [0x20, 0x79];
    assert |spaced| != |TerminalSink.Y| && |spaced| != |TerminalSink.Yes|;
    SpacedYTrims();
    assert Spells(TerminalSink.Y, TerminalSink.Y);
  }

  /** `make_pipeline_and_bus` adds an audio sink unless `NO_AUDIO_OUTPUT` is set to a true value. */
  function HasAudioSink(noAudioOutput: Option<seq<byte>>): (r: bool)
    ensures noAudioOutput.None? ==> r
    ensures noAudioOutput == Some([]) ==> !r
  {
    assert Trim([]) == [];
    !Flag(noAudioOutput, false)
  }

  /* ---------- QuitHandler ---------- */

  /** A boxed `FnOnce()` callback, told apart by the order it was added in or any other name. */
  type Callback = nat

  /** `QuitHandler`: the teardown callbacks still to run. */
  class QuitHandler {
    var callbacks: seq<Callback>

    /** `QuitHandler { callbacks: vec![] }` */
    constructor ()
      ensures callbacks == []
    {
      callbacks := [];
    }

    /** `QuitHandler::add` */
    method Add(callback: Callback)
      modifies this
      ensures callbacks == old(callbacks) + [callback]
    {
      callbacks := callbacks + [callback];
    }

    /**
     * `Drop for QuitHandler`: `drain(..)` hands every callback to the loop once, in the order
     * they were added, and leaves the list empty.  `ran` lists the callbacks in the order called.
     */
    method Drop() returns (ran: seq<Callback>)
      modifies this
      ensures ran == old(callbacks)
      ensures callbacks == []
    {
      ran := [];
      var i := 0;
      while i < |callbacks|
        invariant 0 <= i <= |callbacks|
        invariant ran == callbacks[..i]
      {
        ran := ran + [callbacks[i]];
        i := i + 1;
      }
      callbacks := [];
    }
  }

  /** Every callback added to a fresh handler runs exactly once at its drop, in the order added. */
  method AddAllThenDrop(added: seq<Callback>) returns (ran: seq<Callback>)
    ensures ran == added
  {
    var handler := new QuitHandler();
    var i := 0;
    while i < |added|
      invariant 0 <= i <= |added|
      invariant handler.callbacks == added[..i]
    {
      handler.Add(added[i]);
      assert added[..i + 1] == added[..i] + [added[i]];
      i := i + 1;
    }
    assert added[..i] == added;
    ran := handler.Drop();
  }

  /* ---------- pad-added dispatch ---------- */

  /** What the pad-added callback does with a new decoder pad. */
  datatype PadLink = LinkAudio | LinkVideo | Ignore

  predicate StartsWith(s: string, prefix: string) {
    |prefix| <= |s| && s[..|prefix|] == prefix
  }

  /**
   * The callback of `connect_pad_added`, given the media type of the pad's first caps
   * structure, whether there is an audio sink, and whether the audio sink's and the
   * converter's sink pads are already linked.
   */
  function PadAdded(mediaType: string, hasAudioSink: bool, audioLinked: bool, videoLinked: bool): (r: PadLink)
    ensures r == LinkAudio <==> StartsWith(mediaType, "audio/") && hasAudioSink && !audioLinked
    ensures r == LinkVideo <==> !StartsWith(mediaType, "audio/") && StartsWith(mediaType, "video/") && !videoLinked
  {
    if StartsWith(mediaType, "audio/") then
      if hasAudioSink && !audioLinked then LinkAudio else Ignore
    else if StartsWith(mediaType, "video/") then
      if videoLinked then Ignore else LinkVideo
    else Ignore
  }

  /** No media type starts with both `audio/` and `video/`, so the order of the tests never matters. */
  lemma MediaTypesExclusive(mediaType: string)
    ensures !(StartsWith(mediaType, "audio/") && StartsWith(mediaType, "video/"))
  {
    if StartsWith(mediaType, "audio/") {
      assert mediaType[0] == mediaType[..6][0] == 'a';
    }
  }

  /**
   * The callback over successive pads, each link made by an earlier call counting as linked
   * for the later ones (a failed link panics in the source and is not modelled): the decisions
   * taken and whether the audio and the video sink pads end linked.
   */
  function PadsAdded(mediaTypes: seq<string>, hasAudioSink: bool, audioLinked: bool, videoLinked: bool): (r: (seq<PadLink>, bool, bool))
    ensures |r.0| == |mediaTypes|
    ensures audioLinked ==> r.1
    ensures videoLinked ==> r.2
    decreases |mediaTypes|
  {
    if mediaTypes == [] then ([], audioLinked, videoLinked)
    else
      var d := PadAdded(mediaTypes[0], hasAudioSink, audioLinked, videoLinked);
      var rest := PadsAdded(mediaTypes[1..], hasAudioSink, audioLinked || d == LinkAudio, videoLinked || d == LinkVideo);
      ([d] + rest.0, rest.1, rest.2)
  }

  /** How many of the decisions are `link`. */
  function CountOf(ds: seq<PadLink>, link: PadLink): nat {
    if ds == [] then 0 else (if ds[0] == link then 1 else 0) + CountOf(ds[1..], link)
  }

  /**
   * Whatever pads the decoder adds, at most one is linked to the converter and at most one to
   * the audio sink, none of them when that pad was linked already, and no audio pad at all
   * without an audio sink.
   */
  lemma {:induction false} AtMostOneLinkEach(mediaTypes: seq<string>, hasAudioSink: bool, audioLinked: bool, videoLinked: bool)
    ensures var r := PadsAdded(mediaTypes, hasAudioSink, audioLinked, videoLinked);
      CountOf(r.0, LinkVideo) <= (if videoLinked then 0 else 1) &&
      CountOf(r.0, LinkAudio) <= (if audioLinked || !hasAudioSink then 0 else 1)
    decreases |mediaTypes|
  {
    if mediaTypes != [] {
      var d := PadAdded(mediaTypes[0], hasAudioSink, audioLinked, videoLinked);
      var a' := audioLinked || d == LinkAudio;
      var v' := videoLinked || d == LinkVideo;
      AtMostOneLinkEach(mediaTypes[1..], hasAudioSink, a', v');
      var r := PadsAdded(mediaTypes, hasAudioSink, audioLinked, videoLinked);
      var rest := PadsAdded(mediaTypes[1..], hasAudioSink, a', v');
      assert r.0 == [d] + rest.0;
      assert r.0[1..] == rest.0;
    }
  }
}
