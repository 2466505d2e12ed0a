/**
 * How a block is named in a path: up to eight digits for a height, 64 hex characters for a hash.
 */
module BlockIds {
  import opened Words
  import opened Numerals
  import opened Hex

  datatype BlockId = Height(height: U64) | ByHash(hash: Hash32)

  datatype ParseResult = Parsed(id: BlockId) | NotAHeight | NotAHash | Unrecognised

  /** The dispatch is on the length of the text, never on its value. */
  function Parse(arg: Text): ParseResult {
    if |arg| == HASH_HEX_LEN then
      match HashFromText(arg)
      case Hash(h) => Parsed(ByHash(h))
      case _ => NotAHash
    else if |arg| <= 8 then
      match Decimal(arg)
      case Some(h) => Parsed(Height(h))
      case None => NotAHeight
    else Unrecognised
  }

  function Display(id: BlockId): Text {
    match id
    case Height(h) => Digits(h)
    case ByHash(h) => Encoding(h)
  }

  lemma EightDigits()
    ensures Pow10(8) == 100_000_000 && Pow10(20) > U64_LIMIT
  {
    assert Pow10(2) == 100;
    assert Pow10(4) == 100 * Pow10(2);
    assert Pow10(6) == 100 * Pow10(4);
    assert Pow10(8) == 100 * Pow10(6);
    assert Pow10(10) == 100 * Pow10(8);
    assert Pow10(12) == 100 * Pow10(10);
    assert Pow10(14) == 100 * Pow10(12);
    assert Pow10(16) == 100 * Pow10(14);
    assert Pow10(18) == 100 * Pow10(16);
    assert Pow10(20) == 100 * Pow10(18);
  }

  /**
   * Parsing undoes display for every hash and for exactly the heights below 100,000,000; a greater
   * height is printed as text that is neither shape.
   */
  lemma DisplayRoundTrip(id: BlockId)
    ensures Parse(Display(id)) == Parsed(id) <==> (id.Height? ==> id.height < 100_000_000)
    ensures id.Height? && id.height >= 100_000_000 ==> Parse(Display(id)) == Unrecognised
  {
    EightDigits();
    match id {
      case Height(h) =>
        DecimalOfDigits(h);
        DigitCount(h, 8);
        DigitCount(h, 20);
        hide Digits, Decimal;
      case ByHash(h) =>
        HashRoundTrip(h, []);
        DecodingOfEncoding(h);
        hide Encoding, HashFromText;
    }
  }

  /** Which text names which block. */
  lemma ParseMeans(arg: Text, id: BlockId)
    ensures Parse(arg) == Parsed(id) <==>
            match id
            case Height(h) => 1 <= |arg| <= 8 && AllDigits(arg) && Value(arg) == h
            case ByHash(h) => Lower(arg) == Encoding(h)
  {
    match id {
      case Height(h) =>
        hide Value, HashFromText;
      case ByHash(h) =>
        HashRoundTrip(h, arg);
        DecodingOfEncoding(h);
        hide Encoding, HashFromText, Decimal;
    }
  }

  /** And what is said of text that names none. */
  lemma ParseErrors(arg: Text)
    ensures Parse(arg) == NotAHash <==> |arg| == 64 && !AllHex(arg)
    ensures Parse(arg) == NotAHeight <==> |arg| <= 8 && (arg == [] || !AllDigits(arg))
    ensures Parse(arg) == Unrecognised <==> |arg| > 8 && |arg| != 64
  {
    HashErrors(arg);
    if |arg| <= 8 && AllDigits(arg) {
      ValueBound(arg);
      EightDigits();
      PowersGrow(|arg|, 8);
    }
    hide Value, HashFromText, AllHex, Pow10;
  }

  lemma {:induction false} ValueBound(s: Text)
    requires AllDigits(s)
    ensures Value(s) < Pow10(|s|)
  {
    if s != [] {
      ValueBound(s[..|s| - 1]);
    }
  }

  lemma {:induction false} PowersGrow(m: nat, n: nat)
    requires m <= n
    ensures Pow10(m) <= Pow10(n)
    decreases n - m
  {
    if m < n {
      PowersGrow(m + 1, n);
    }
  }
}
