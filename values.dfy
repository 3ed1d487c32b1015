/**
 * Values as the migration code sees them: cells handed over by the database
 * driver, Python's unicode() rendering of a cell, truthiness, unicode.strip(),
 * and the exceptions the code raises.
 */
module Values {

  /** The Python exceptions raised by the modelled code. */
  datatype Error =
    | TypeError(message: string)
    | ValueError(message: string)
    | KeyError(key: string)
    | AssertionError(message: string)
    | AttributeError(message: string)
    | IndexError(message: string)
    | DatabaseError(message: string)

  /**
   * A value fetched from the legacy database: a unicode string, NULL, an
   * integer, or any other driver object (a date, a decimal, ...) given by the
   * text unicode() renders it as and by its Python truth value.
   */
  datatype Cell =
    | Text(s: string)
    | Null
    | Int(n: int)
    | Other(rendered: string, truthy: bool)

  function DigitChar(d: nat): (c: char)
    requires d < 10
    ensures '0' <= c <= '9'
  {
    ['0', '1', '2', '3', '4', '5', '6', '7', '8', '9'][d]
  }

  /** Decimal digits of n, most significant first, without leading zeros. */
  function Digits(n: nat): (r: string)
    ensures 1 <= |r|
    ensures forall i :: 0 <= i < |r| ==> '0' <= r[i] <= '9'
    ensures n > 0 ==> r[0] != '0'
  {
    if n < 10 then [DigitChar(n)] else Digits(n / 10) + [DigitChar(n % 10)]
  }

  /** unicode(n) for a Python int. */
  function IntToString(n: int): string
  {
    if n < 0 then "-" + Digits(-n) else Digits(n)
  }

  /** unicode(c): a string is kept as it is, None renders as "None". */
  function Render(c: Cell): string
  {
    match c
    case Text(s) => s
    case Null => "None"
    case Int(n) => IntToString(n)
    case Other(r, _) => r
  }

  /** Python truth value of a cell. */
  predicate Truthy(c: Cell)
  {
    match c
    case Text(s) => s != ""
    case Null => false
    case Int(n) => n != 0
    case Other(_, t) => t
  }

  /** The characters unicode.isspace() accepts, which unicode.strip() removes. */
  predicate IsSpace(c: char)
  {
    || '\t' <= c <= '\r' || '\U{1c}' <= c <= '\U{1f}' || c == ' '
    || c == '\U{85}' || c == '\U{a0}' || c == '\U{1680}' || c == '\U{180e}'
    || '\U{2000}' <= c <= '\U{200a}' || c == '\U{2028}' || c == '\U{2029}'
    || c == '\U{202f}' || c == '\U{205f}' || c == '\U{3000}'
  }

  /** Neither end of s is whitespace. */
  predicate IsStripped(s: string)
  {
    s == [] || (!IsSpace(s[0]) && !IsSpace(s[|s| - 1]))
  }

  /** The number of leading whitespace characters of s. */
  function Leading(s: string): (n: nat)
    ensures n <= |s|
    ensures forall k :: 0 <= k < n ==> IsSpace(s[k])
    ensures n == |s| || !IsSpace(s[n])
  {
    if s != [] && IsSpace(s[0]) then 1 + Leading(s[1..]) else 0
  }

  /** s without its trailing whitespace. */
  function TrimRight(s: string): (r: string)
    ensures |r| <= |s| && r == s[..|r|]
    ensures r == [] || !IsSpace(r[|r| - 1])
    ensures forall k :: |r| <= k < |s| ==> IsSpace(s[k])
  {
    if s != [] && IsSpace(s[|s| - 1]) then TrimRight(s[..|s| - 1]) else s
  }

  /** unicode.strip(): s with its leading and trailing whitespace cut off. */
  function Strip(s: string): (r: string)
    ensures IsStripped(r)
  {
    TrimRight(s[Leading(s)..])
  }

  /**
   * What strip() keeps is the middle part of s after its leading whitespace;
   * every character cut off is whitespace.
   */
  lemma StripCuts(s: string)
    ensures Leading(s) + |Strip(s)| <= |s|
    ensures Strip(s) == s[Leading(s)..Leading(s) + |Strip(s)|]
    ensures forall k :: 0 <= k < Leading(s) ==> IsSpace(s[k])
    ensures forall k :: Leading(s) + |Strip(s)| <= k < |s| ==> IsSpace(s[k])
  {
    StripMiddle(s);
    StripTail(s);
  }

  lemma StripMiddle(s: string)
    ensures Leading(s) + |Strip(s)| <= |s|
    ensures Strip(s) == s[Leading(s)..Leading(s) + |Strip(s)|]
  {
    var n := Leading(s);
    var r := TrimRight(s[n..]);
    assert r == s[n..][..|r|];
    assert s[n..][..|r|] == s[n..n + |r|];
  }

  lemma StripTail(s: string)
    ensures forall k :: Leading(s) + |Strip(s)| <= k < |s| ==> IsSpace(s[k])
  {
    var n := Leading(s);
    var t := s[n..];
    var r := TrimRight(t);
    assert Strip(s) == r;
    forall k | n + |r| <= k < |s| ensures IsSpace(s[k]) {
      var j := k - n;
      assert |r| <= j < |t|;
      assert IsSpace(t[j]);
      assert t[j] == s[k];
    }
  }
}
