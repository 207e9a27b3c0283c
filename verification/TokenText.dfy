// Element tokens as text, and the check every tool call makes before it targets an element.
module TokenText {
  import opened Wrappers
  import opened Numbers
  import opened Text
  import opened ElementTokens

  // ---------------------------------------------------------------- hexadecimal

  function HexChar(d: nat): char
    requires d < 16
  {
    if d < 10 then DigitChar(d) else ('a' as int + d - 10) as char
  }

  /** Digits of either case. */
  function HexDigit(c: char): Option<nat> {
    if IsDigit(c) then Some(DigitValue(c))
    else if 'a' <= c <= 'f' then Some(c as int - 'a' as int + 10)
    else if 'A' <= c <= 'F' then Some(c as int - 'A' as int + 10)
    else None
  }

  /** The lowest `width` hexadecimal digits, lower case. */
  function Hex(n: nat, width: nat): string {
    if width == 0 then "" else Hex(n / 16, width - 1) + [HexChar(n % 16)]
  }

  function HexValue(s: string): Option<nat> {
    if s == "" then Some(0)
    else
      match (HexValue(s[..|s| - 1]), HexDigit(s[|s| - 1]))
      case (Some(high), Some(low)) => Some(16 * high + low)
      case _ => None
  }

  lemma {:induction false} HexReads(n: nat, width: nat)
    requires n < Power(16, width)
    ensures |Hex(n, width)| == width && HexValue(Hex(n, width)) == Some(n)
    ensures forall c <- Hex(n, width) :: IsDigit(c) || 'a' <= c <= 'f'
  {
    if width > 0 {
      HexReads(n / 16, width - 1);
      var s := Hex(n, width);
      assert s[..|s| - 1] == Hex(n / 16, width - 1);
      assert HexDigit(HexChar(n % 16)) == Some(n % 16);
    }
  }

  lemma {:induction false} HexWrites(s: string)
    requires HexValue(s).Some?
    ensures HexValue(s).value < Power(16, |s|)
    ensures Hex(HexValue(s).value, |s|) == s <==> forall c <- s :: !('A' <= c <= 'F')
  {
    if s != "" {
      var front, last := s[..|s| - 1], s[|s| - 1];
      HexWrites(front);
      var high, low := HexValue(front).value, HexDigit(last).value;
      assert (16 * high + low) / 16 == high && (16 * high + low) % 16 == low;
      assert s == front + [last];
      HexReads(high, |front|);
      assert Hex(HexValue(s).value, |s|) == Hex(high, |front|) + [HexChar(low)];
      SameEnds(Hex(high, |front|), HexChar(low), front, last);
      assert HexChar(low) == last <==> !('A' <= last <= 'F');
      assert last in s && forall c <- s :: c in front || c == last;
    }
  }

  lemma SameEnds(a: string, c: char, b: string, d: char)
    requires |a| == |b|
    ensures a + [c] == b + [d] <==> a == b && c == d
    ensures forall e <- b :: e in b + [d]
  {
    assert (a + [c])[..|a|] == a && (b + [d])[..|b|] == b;
    assert (a + [c])[|a|] == c && (b + [d])[|b|] == d;
  }

  const HEX_DIGITS: string := "0123456789abcdef"

  lemma HexSpelling(d: nat)
    requires d < 16
    ensures HexChar(d) == HEX_DIGITS[d]
  {
  }

  /** The digit `k` places from the right counts how often sixteen to the power of `k` goes into the number. */
  lemma {:induction false} HexAt(n: nat, width: nat, k: nat)
    requires k < width
    ensures |Hex(n, width)| == width && Power(16, k) > 0 && Hex(n, width)[width - 1 - k] == HEX_DIGITS[n / Power(16, k) % 16]
  {
    HexLength(n / 16, width - 1);
    if k == 0 {
      HexSpelling(n % 16);
    } else {
      HexAt(n / 16, width - 1, k - 1);
      PlaceValue(n, 16, k);
    }
  }

  lemma {:induction false} HexLength(n: nat, width: nat)
    ensures |Hex(n, width)| == width
  {
    if width > 0 {
      HexLength(n / 16, width - 1);
    }
  }

  /** A hexadecimal digit in lower case; anything else as it is. */
  function Lowered(s: string): string {
    seq(|s|, i requires 0 <= i < |s| => if 'A' <= s[i] <= 'F' then (s[i] as int + 32) as char else s[i])
  }

  /** How a number may be spelt in hexadecimal: a plus sign, and enough digits of either case. */
  ghost predicate SpellsHex(s: string, n: nat) {
    exists digits :: WithOrWithoutPlus(s, digits) && digits != "" && n < Power(16, |digits|) && Lowered(digits) == Hex(n, |digits|)
  }

  predicate WithOrWithoutPlus(s: string, digits: string) {
    s == digits || s == "+" + digits
  }

  lemma {:induction false} HexValueExact(digits: string, n: nat)
    ensures HexValue(digits) == Some(n) <==> n < Power(16, |digits|) && Lowered(digits) == Hex(n, |digits|)
  {
    hide HexDigit, HexChar, Power;
    if digits == "" {
      assert Power(16, 0) == 1 by {
        NoPlaces();
      }
    } else {
      var front, last := digits[..|digits| - 1], digits[|digits| - 1];
      LoweredLast(digits);
      HexLength(n / 16, |front|);
      HexValueExact(front, n / 16);
      OnePlaceMore(n, |front|);
      LowerDigit(last, n % 16);
      if HexValue(digits) == Some(n) {
        LowDigit(last);
        assert n / 16 == HexValue(front).value;
      }
      SameEnds(Hex(n / 16, |front|), HexChar(n % 16), Lowered(front), Lowered([last])[0]);
    }
  }

  lemma NoPlaces()
    ensures Power(16, 0) == 1
  {
  }

  lemma OnePlaceMore(n: nat, width: nat)
    ensures n < Power(16, width + 1) <==> n / 16 < Power(16, width)
  {
    assert Power(16, width + 1) == 16 * Power(16, width);
    var p := Power(16, width);
    assert n < 16 * p <==> n / 16 < p;
  }

  lemma LoweredLast(digits: string)
    requires digits != ""
    ensures Lowered(digits) == Lowered(digits[..|digits| - 1]) + [Lowered([digits[|digits| - 1]])[0]]
  {
  }

  lemma LowDigit(c: char)
    ensures HexDigit(c).Some? ==> HexDigit(c).value < 16
  {
  }

  lemma LowerDigit(c: char, d: nat)
    requires d < 16
    ensures HexDigit(c) == Some(d) <==> Lowered([c])[0] == HexChar(d)
  {
  }

  // ---------------------------------------------------------------- the parsers of the standard library

  function ParseHex(s: string, limit: nat): Option<nat> {
    var digits := Unsigned(s);
    if digits == "" then None
    else
      match HexValue(digits)
      case Some(value) => if value < limit then Some(value) else None
      case None => None
  }

  // ---------------------------------------------------------------- tokens

  function FormatToken(id: nat, index: nat): string {
    "s" + Hex(id, 8) + ":" + Decimal(index)
  }

  function ParseToken(token: string): Option<(nat, nat)> {
    if token == "" || token[0] != 's' then None
    else
      var body := token[1..];
      var at := Colon(body);
      if at != 8 || at == |body| then None
      else
        match (ParseHex(body[..at], U32), ParseDecimal(body[at + 1..], U64))
        case (Some(id), Some(index)) => Some((id, index))
        case _ => None
  }

  function ParseSnapshotHandle(handle: string): Option<nat> {
    if handle == "" || handle[0] != 's' then None
    else if |handle| != 9 || ':' in handle then None
    else ParseHex(handle[1..], U32)
  }

  lemma SixteenToEight()
    ensures Power(16, 8) == U32
  {
    assert Power(16, 4) == 0x1_0000;
    assert Power(16, 6) == 0x100_0000;
  }

  /** A hexadecimal number is read from its spellings, and from nothing else. */
  lemma ParseHexExact(s: string, limit: nat, n: nat)
    ensures ParseHex(s, limit) == Some(n) <==> n < limit && SpellsHex(s, n)
  {
    hide HexValue, Hex, Power, Lowered;
    if ParseHex(s, limit) == Some(n) {
      HexValueExact(Unsigned(s), n);
      assert WithOrWithoutPlus(s, Unsigned(s));
    }
    if digits :| WithOrWithoutPlus(s, digits) && digits != "" && n < Power(16, |digits|) && Lowered(digits) == Hex(n, |digits|) {
      HexValueExact(digits, n);
      HexHasNoSign(digits);
      assert digits[0] in digits;
      assert ("+" + digits)[1..] == digits;
    }
  }

  /** A handle names a snapshot: the letter s and its id in eight places. */
  ghost predicate SpellsHandle(handle: string, id: nat) {
    |handle| == 9 && handle[0] == 's' && SpellsHex(handle[1..], id)
  }

  /** A token names an element: the handle of its snapshot, a colon and its index. */
  ghost predicate SpellsToken(token: string, id: nat, index: nat) {
    |token| > 10 && SpellsHandle(token[..9], id) && token[9] == ':' && index < U64 && Spells(token[10..], index)
  }

  lemma {:induction false} PowerGrows(a: nat, b: nat)
    requires a <= b
    ensures Power(16, a) <= Power(16, b)
  {
    if a < b {
      PowerGrows(a, b - 1);
    }
  }

  lemma EightPlacesFit(hex: string, id: nat)
    requires |hex| == 8 && SpellsHex(hex, id)
    ensures id < U32
  {
    hide Power, Hex, Lowered;
    var digits :| WithOrWithoutPlus(hex, digits) && id < Power(16, |digits|);
    SixteenToEight();
    PowerGrows(|digits|, 8);
  }

  lemma HexHasNoColon(s: string, limit: nat)
    requires ParseHex(s, limit).Some?
    ensures forall i | 0 <= i < |s| :: s[i] != ':'
  {
    hide HexValue;
    NoColonInHex(Unsigned(s));
    assert forall i | 0 < i < |s| :: s[i] == s[1..][i - 1];
  }

  lemma {:induction false} NoColonInHex(s: string)
    requires HexValue(s).Some?
    ensures forall i | 0 <= i < |s| :: s[i] != ':'
  {
    if s != "" {
      NoColonInHex(s[..|s| - 1]);
    }
  }

  /** Handles are read as they are spelt. */
  lemma HandleExact(handle: string, id: nat)
    ensures ParseSnapshotHandle(handle) == Some(id) <==> SpellsHandle(handle, id)
  {
    hide ParseHex, SpellsHex;
    if |handle| == 9 && handle[0] == 's' {
      var hex := handle[1..];
      ParseHexExact(hex, U32, id);
      if SpellsHex(hex, id) {
        EightPlacesFit(hex, id);
      }
      if ParseHex(hex, U32).Some? {
        HexHasNoColon(hex, U32);
        assert forall i | 0 < i < |handle| :: handle[i] == hex[i - 1];
      }
    }
  }

  /** And so are tokens. */
  lemma TokenExact(token: string, id: nat, index: nat)
    ensures ParseToken(token) == Some((id, index)) <==> SpellsToken(token, id, index)
  {
    hide ParseHex, ParseDecimal, SpellsHex, Spells, Colon;
    if |token| > 9 && token[0] == 's' && token[9] == ':' {
      var body := token[1..];
      assert body[..8] == token[..9][1..] && body[9..] == token[10..] && body[8] == ':';
      ParseHexExact(body[..8], U32, id);
      ParseDecimalExact(body[9..], U64, index);
      if SpellsHex(body[..8], id) {
        EightPlacesFit(body[..8], id);
      }
      if ParseHex(body[..8], U32).Some? {
        HexHasNoColon(body[..8], U32);
        assert forall i | 0 <= i < 8 :: body[i] == body[..8][i];
        assert Colon(body) == 8;
      }
      if Spells(body[9..], index) {
        SpelledNotEmpty(body[9..], index);
      }
    } else if token != "" {
      assert Colon(token[1..]) == 8 && |token| > 9 ==> token[9] == ':';
    }
  }

  lemma SpelledNotEmpty(s: string, n: nat)
    requires Spells(s, n)
    ensures s != ""
  {
    hide Decimal, Zeros;
    DecimalReads(n);
  }

  /** What the store hands out is spelt so. */
  lemma HandleSpelled(id: nat)
    requires id < U32
    ensures |Hex(id, 8)| == 8 && SpellsHandle("s" + Hex(id, 8), id)
    ensures ParseSnapshotHandle("s" + Hex(id, 8)) == Some(id)
  {
    hide Hex, Power, HexValue;
    SixteenToEight();
    HexReads(id, 8);
    var hex := Hex(id, 8);
    assert forall i | 0 <= i < 8 :: hex[i] in hex;
    assert Lowered(hex) == hex;
    assert WithOrWithoutPlus(hex, hex) && hex != "";
    assert SpellsHex(hex, id);
    var handle := "s" + hex;
    assert handle[1..] == hex;
    HandleExact(handle, id);
  }

  /** Every token the store hands out is read back as what it was made from. */
  lemma TokenRoundTrip(id: nat, index: nat)
    requires id < U32 && index < U64
    ensures ParseToken(FormatToken(id, index)) == Some((id, index))
  {
    hide Hex, HexValue, Decimal, DecimalValue, Power, Colon;
    SixteenToEight();
    HexReads(id, 8);
    DecimalReads(index);
    var hex, decimal := Hex(id, 8), Decimal(index);
    var body := FormatToken(id, index)[1..];
    assert body == hex + ":" + decimal;
    assert forall i | 0 <= i < 8 :: body[i] == hex[i] && hex[i] in hex;
    assert body[8] == ':';
    assert body[..8] == hex && body[9..] == decimal;
    assert decimal[0] != '+' && hex[0] != '+' by {
      assert IsDigit(decimal[0]);
      assert hex[0] in hex;
    }
  }

  /** Spelt as the store spells it: no sign, lower-case digits, no superfluous zero. */
  predicate Canonical(token: string)
    requires |token| > 10
  {
    && (forall c <- token :: c != '+' && !('A' <= c <= 'F'))
    && (token[10] == '0' ==> |token| == 11)
  }

  /** The parser accepts other spellings too; only the canonical one is what the store formats. */
  lemma TokenSpelling(token: string)
    requires ParseToken(token).Some?
    ensures |token| > 10
    ensures FormatToken(ParseToken(token).value.0, ParseToken(token).value.1) == token <==> Canonical(token)
  {
    hide Hex, HexValue, Decimal, DecimalValue, Power, Colon, ParseHex, ParseDecimal;
    var body := token[1..];
    var hex, tail := body[..8], body[9..];
    var (id, index) := ParseToken(token).value;
    assert Colon(body) == 8;
    HexPart(hex);
    DecimalPart(tail);
    assert token == "s" + hex + ":" + tail && tail[0] == token[10];
    assert forall c <- token :: c == 's' || c in hex || c == ':' || c in tail;
    assert forall c <- hex :: c in token;
    assert forall c <- tail :: c in token;
    SpelledAlike(Hex(id, 8), Decimal(index), hex, tail);
  }

  lemma HexPart(hex: string)
    requires |hex| == 8 && ParseHex(hex, U32).Some?
    ensures |Hex(ParseHex(hex, U32).value, 8)| == 8
    ensures Hex(ParseHex(hex, U32).value, 8) == hex <==> forall c <- hex :: c != '+' && !('A' <= c <= 'F')
  {
    hide Hex, HexValue, Power;
    SixteenToEight();
    var id := ParseHex(hex, U32).value;
    HexReads(id, 8);
    if Unsigned(hex) == hex {
      HexWrites(hex);
      HexHasNoSign(hex);
    } else {
      assert hex[0] in hex;
    }
  }

  lemma {:induction false} HexHasNoSign(s: string)
    requires HexValue(s).Some?
    ensures '+' !in s
  {
    if s != "" {
      HexHasNoSign(s[..|s| - 1]);
      assert s == s[..|s| - 1] + [s[|s| - 1]];
    }
  }

  lemma DecimalPart(tail: string)
    requires ParseDecimal(tail, U64).Some?
    ensures tail != "" && forall c <- tail :: IsDigit(c) || c == '+'
    ensures Decimal(ParseDecimal(tail, U64).value) == tail <==> '+' !in tail && (tail[0] == '0' ==> |tail| == 1)
  {
    hide Decimal, DecimalValue;
    var index := ParseDecimal(tail, U64).value;
    DecimalReads(index);
    SingleZero();
    assert forall i | 0 < i < |tail| :: tail[i] == tail[1..][i - 1];
    assert tail[0] in tail;
    if Unsigned(tail) == tail && (tail[0] == '0' ==> |tail| == 1) {
      DecimalWrites(tail);
    }
  }

  lemma SingleZero()
    ensures Decimal(0) == "0"
  {
  }

  lemma SpelledAlike(a: string, b: string, c: string, d: string)
    requires |c| == 8
    ensures |a| == 8 ==> ("s" + a + ":" + b == "s" + c + ":" + d <==> a == c && b == d)
  {
    if |a| == 8 && "s" + a + ":" + b == "s" + c + ":" + d {
      var s := "s" + a + ":" + b;
      assert a == s[1..9] && c == s[1..9] && b == s[10..] && d == s[10..];
    }
  }

  // ---------------------------------------------------------------- tool arguments

  datatype Resolved = NoElement | Element(window: nat, index: nat)

  datatype Refusal =
    | ElementIndexRequired | SnapshotIdRequired | InvalidSnapshotId | InvalidElementToken
    | StaleElementToken | GenerationMismatch | ConflictingElementTarget

  function RefusalFor(error: TokenError): Refusal {
    match error
    case Stale => StaleElementToken
    case AnotherRuntime => GenerationMismatch
    case OutOfRange => InvalidElementToken
  }

  function ResolveToken(schema: nat, lanes: seq<Lane>, scope: string, pid: int, token: string): Result<(nat, nat), Refusal> {
    match ParseToken(token)
    case None => Failure(InvalidElementToken)
    case Some((id, index)) =>
      match Resolve(schema, lanes, scope, pid, id, index)
      case Success(target) => Success(target)
      case Failure(error) => Failure(RefusalFor(error))
  }

  /** A supplied argument that names something else. */
  predicate Disagrees(argument: Option<nat>, value: nat) {
    match argument
    case Some(given) => given != value
    case None => false
  }

  function ResolveElementArgs(schema: nat, lanes: seq<Lane>, scope: string, pid: int, argsIndex: Option<nat>,
                              argsToken: Option<string>, argsSnapshot: Option<string>, argsWindow: Option<nat>)
    : Result<Resolved, Refusal>
  {
    match (argsIndex, argsToken, argsSnapshot)
    case (None, None, None) => Success(NoElement)
    case (None, None, Some(_)) => Failure(ElementIndexRequired)
    case (Some(_), None, None) => Failure(SnapshotIdRequired)
    case (Some(index), None, Some(handle)) =>
      (match ParseSnapshotHandle(handle)
       case None => Failure(InvalidSnapshotId)
       case Some(id) =>
         match ResolveToken(schema, lanes, scope, pid, FormatToken(id, index))
         case Failure(refusal) => Failure(refusal)
         case Success((window, resolved)) =>
           if Disagrees(argsWindow, window) then Failure(ConflictingElementTarget)
           else Success(Element(window, resolved)))
    case (_, Some(token), _) =>
      match ResolveToken(schema, lanes, scope, pid, token)
      case Failure(refusal) => Failure(refusal)
      case Success((window, index)) =>
        if Disagrees(argsIndex, index) || Disagrees(argsWindow, window)
           || (argsSnapshot.Some? && ParseSnapshotHandle(argsSnapshot.value) != Some(ParseToken(token).value.0))
        then Failure(ConflictingElementTarget)
        else Success(Element(window, index))
  }

  /** What a call asks for: the element its token names, or the one with its index in the snapshot its handle names. */
  ghost predicate AsksFor(argsIndex: Option<nat>, argsToken: Option<string>, argsSnapshot: Option<string>, id: nat, index: nat) {
    match argsToken
    case Some(token) => SpellsToken(token, id, index)
    case None => argsIndex == Some(index) && argsSnapshot.Some? && SpellsHandle(argsSnapshot.value, id)
  }

  /** Whatever else the call says agrees with that. */
  ghost predicate Agrees(argsIndex: Option<nat>, argsSnapshot: Option<string>, argsWindow: Option<nat>, id: nat, index: nat, window: nat) {
    && (argsIndex.Some? ==> argsIndex.value == index)
    && (argsSnapshot.Some? ==> SpellsHandle(argsSnapshot.value, id))
    && (argsWindow.Some? ==> argsWindow.value == window)
  }

  /** A call that asks for an element gets it when the store resolves it and the rest of the call agrees, and is refused for what
      is wrong otherwise. */
  lemma AskedExact(schema: nat, lanes: seq<Lane>, scope: string, pid: int, argsIndex: Option<nat>, argsToken: Option<string>,
                   argsSnapshot: Option<string>, argsWindow: Option<nat>, id: nat, index: nat)
    requires argsIndex.Some? ==> argsIndex.value < U64
    requires AsksFor(argsIndex, argsToken, argsSnapshot, id, index)
    ensures ResolveElementArgs(schema, lanes, scope, pid, argsIndex, argsToken, argsSnapshot, argsWindow) ==
      match Resolve(schema, lanes, scope, pid, id, index)
      case Failure(Stale) => Failure(StaleElementToken)
      case Failure(AnotherRuntime) => Failure(GenerationMismatch)
      case Failure(OutOfRange) => Failure(InvalidElementToken)
      case Success((window, _)) =>
        if Agrees(argsIndex, argsSnapshot, argsWindow, id, index, window) then Success(Element(window, index))
        else Failure(ConflictingElementTarget)
  {
    hide FormatToken, ParseToken, ParseSnapshotHandle, SpellsToken, SpellsHandle;
    ResolvesToIndex(schema, lanes, scope, pid, id, index);
    if argsSnapshot.Some? {
      HandleExact(argsSnapshot.value, id);
    }
    match argsToken {
      case Some(token) =>
        TokenExact(token, id, index);
      case None =>
        HandleFits(argsSnapshot.value, id);
        TokenRoundTrip(id, index);
    }
  }

  lemma ResolvesToIndex(schema: nat, lanes: seq<Lane>, scope: string, pid: int, id: nat, index: nat)
    ensures var r := Resolve(schema, lanes, scope, pid, id, index); r.Success? ==> r.value.1 == index
  {
  }

  lemma HandleFits(handle: string, id: nat)
    requires SpellsHandle(handle, id)
    ensures id < U32
  {
    EightPlacesFit(handle[1..], id);
  }

  /** A call that asks for none is told what is missing or malformed. */
  lemma NotAskedExact(schema: nat, lanes: seq<Lane>, scope: string, pid: int, argsIndex: Option<nat>, argsToken: Option<string>,
                      argsSnapshot: Option<string>, argsWindow: Option<nat>)
    requires forall id: nat, index: nat :: !AsksFor(argsIndex, argsToken, argsSnapshot, id, index)
    ensures ResolveElementArgs(schema, lanes, scope, pid, argsIndex, argsToken, argsSnapshot, argsWindow) ==
      if argsToken.Some? then Failure(InvalidElementToken)
      else if argsIndex.Some? then Failure(if argsSnapshot.Some? then InvalidSnapshotId else SnapshotIdRequired)
      else if argsSnapshot.Some? then Failure(ElementIndexRequired)
      else Success(NoElement)
  {
    hide FormatToken, ParseToken, ParseSnapshotHandle, SpellsToken, SpellsHandle;
    if argsToken.Some? {
      forall id: nat, index: nat ensures ParseToken(argsToken.value) != Some((id, index)) {
        assert !AsksFor(argsIndex, argsToken, argsSnapshot, id, index);
        TokenExact(argsToken.value, id, index);
      }
    } else if argsIndex.Some? && argsSnapshot.Some? {
      forall id: nat ensures ParseSnapshotHandle(argsSnapshot.value) != Some(id) {
        assert !AsksFor(argsIndex, argsToken, argsSnapshot, id, argsIndex.value);
        HandleExact(argsSnapshot.value, id);
      }
    }
  }

  /** A call gets an element exactly when it asks for one the store resolves and everything else it says agrees. */
  lemma ElementArgsExact(schema: nat, lanes: seq<Lane>, scope: string, pid: int, argsIndex: Option<nat>,
                         argsToken: Option<string>, argsSnapshot: Option<string>, argsWindow: Option<nat>, window: nat, index: nat)
    requires argsIndex.Some? ==> argsIndex.value < U64
    ensures ResolveElementArgs(schema, lanes, scope, pid, argsIndex, argsToken, argsSnapshot, argsWindow)
              == Success(Element(window, index))
      <==>
      exists id: nat ::
        && AsksFor(argsIndex, argsToken, argsSnapshot, id, index)
        && Agrees(argsIndex, argsSnapshot, argsWindow, id, index, window)
        && Resolve(schema, lanes, scope, pid, id, index) == Success((window, index))
  {
    hide ResolveElementArgs, Resolve, Agrees, AsksFor;
    if id: nat, at: nat :| AsksFor(argsIndex, argsToken, argsSnapshot, id, at) {
      AskedExact(schema, lanes, scope, pid, argsIndex, argsToken, argsSnapshot, argsWindow, id, at);
      ResolvesToIndex(schema, lanes, scope, pid, id, at);
      forall other: nat | AsksFor(argsIndex, argsToken, argsSnapshot, other, index) ensures other == id && index == at {
        OneAnswer(argsIndex, argsToken, argsSnapshot, id, at, other, index);
      }
    } else {
      NotAskedExact(schema, lanes, scope, pid, argsIndex, argsToken, argsSnapshot, argsWindow);
    }
  }

  lemma OneAnswer(argsIndex: Option<nat>, argsToken: Option<string>, argsSnapshot: Option<string>, id: nat, index: nat, id2: nat, index2: nat)
    requires AsksFor(argsIndex, argsToken, argsSnapshot, id, index) && AsksFor(argsIndex, argsToken, argsSnapshot, id2, index2)
    ensures id == id2 && index == index2
  {
    hide SpellsToken, SpellsHandle, ParseToken, ParseSnapshotHandle;
    match argsToken {
      case Some(token) =>
        TokenExact(token, id, index);
        TokenExact(token, id2, index2);
      case None =>
        HandleExact(argsSnapshot.value, id);
        HandleExact(argsSnapshot.value, id2);
    }
  }

  /** The handle the store hands out for a snapshot and an index in it, with nothing else said, reach that element. */
  lemma HandleReaches(schema: nat, lanes: seq<Lane>, scope: string, pid: int, id: nat, index: nat)
    requires id < U32 && index < U64
    ensures ResolveElementArgs(schema, lanes, scope, pid, Some(index), None, Some("s" + Hex(id, 8)), None) ==
      match Resolve(schema, lanes, scope, pid, id, index)
      case Success((window, _)) => Success(Element(window, index))
      case Failure(Stale) => Failure(StaleElementToken)
      case Failure(AnotherRuntime) => Failure(GenerationMismatch)
      case Failure(OutOfRange) => Failure(InvalidElementToken)
  {
    hide ResolveElementArgs, Resolve, Hex, SpellsHandle;
    HandleSpelled(id);
    AskedExact(schema, lanes, scope, pid, Some(index), None, Some("s" + Hex(id, 8)), None, id, index);
  }

  /** Only a call that names no snapshot, token or index at all is left to other addressing. */
  lemma NoElementExact(schema: nat, lanes: seq<Lane>, scope: string, pid: int, argsIndex: Option<nat>,
                       argsToken: Option<string>, argsSnapshot: Option<string>, argsWindow: Option<nat>)
    ensures ResolveElementArgs(schema, lanes, scope, pid, argsIndex, argsToken, argsSnapshot, argsWindow) == Success(NoElement)
      <==> argsIndex.None? && argsToken.None? && argsSnapshot.None?
  {
  }
}
