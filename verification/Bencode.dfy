/** The bencode tokenizer (bedecoder/be_parser.cpp). The source is followed by a NUL. */
module Bencode {
  const LONG_MAX: nat := 0x7fff_ffff_ffff_ffff

  datatype Kind = Int | Str | ListStart | ListEnd | DictStart | DictEnd

  /** A token with its slice of the source; brackets have an `end` of 0. */
  datatype Token = Token(kind: Kind, start: nat, end: nat)

  datatype Error = BadInteger | BadString | BadData

  /** Tokens and the offset after them, or the exception. */
  datatype Result = Ok(tokens: seq<Token>, next: nat) | Err(error: Error)

  // ----- strtol

  predicate IsDigit(c: char) { '0' <= c <= '9' }

  predicate IsSpace(c: char) { c == ' ' || '\t' as int <= c as int <= '\r' as int }

  function DigitsEnd(src: string, i: nat): (e: nat)
    requires i <= |src|
    ensures i <= e <= |src|
    ensures forall k :: i <= k < e ==> IsDigit(src[k])
    ensures e < |src| ==> !IsDigit(src[e])
    decreases |src| - i
  {
    if i < |src| && IsDigit(src[i]) then DigitsEnd(src, i + 1) else i
  }

  function SkipSpace(src: string, i: nat): (e: nat)
    requires i <= |src|
    ensures i <= e <= |src|
    decreases |src| - i
  {
    if i < |src| && IsSpace(src[i]) then SkipSpace(src, i + 1) else i
  }

  /** Where strtol stops: after blanks, a sign and digits, or where it began if there are
      no digits. */
  function StrtolEnd(src: string, i: nat): (e: nat)
    requires i <= |src|
    ensures i <= e <= |src|
  {
    var j := SkipSpace(src, i);
    var k := if j < |src| && (src[j] == '+' || src[j] == '-') then j + 1 else j;
    var e := DigitsEnd(src, k);
    if e == k then i else e
  }

  function DigitValue(c: char): nat
    requires IsDigit(c)
  {
    c as int - '0' as int
  }

  function Decimal(digits: string): nat
    requires forall k :: 0 <= k < |digits| ==> IsDigit(digits[k])
  {
    if digits == [] then 0
    else Decimal(digits[..|digits| - 1]) * 10 + DigitValue(digits[|digits| - 1])
  }

  /** The value strtol returns at a digit; it stops growing at LONG_MAX. */
  function StrtolValue(src: string, i: nat): nat
    requires i <= |src|
  {
    var value := Decimal(src[i..DigitsEnd(src, i)]);
    if value < LONG_MAX then value else LONG_MAX
  }

  // ----- the grammar the parser follows

  function Integer(src: string, at: nat): (r: Result)
    requires at < |src|
    ensures r.Ok? ==> r.next > at
  {
    var end := StrtolEnd(src, at + 1);
    if end < |src| && src[end] == 'e' then Ok([Token(Int, at + 1, end)], end + 1) else Err(BadInteger)
  }

  function String(src: string, at: nat): (r: Result)
    requires at < |src|
    ensures r.Ok? ==> r.next > at
  {
    var delim := DigitsEnd(src, at);
    if delim < |src| && src[delim] == ':' then
      var end := delim + 1 + StrtolValue(src, at);
      Ok([Token(Str, delim + 1, end)], end)
    else Err(BadString)
  }

  /** A list or dictionary that opens at `at` and closes at `end`. */
  function Bracketed(isList: bool, at: nat, inner: seq<Token>, end: nat): (ts: seq<Token>)
    ensures |ts| == |inner| + 2
  {
    [Token(if isList then ListStart else DictStart, at, 0)] + inner
      + [Token(if isList then ListEnd else DictEnd, end, 0)]
  }

  /** One item: an integer, a string, or a bracketed sequence of items. */
  function Item(src: string, at: nat): (r: Result)
    requires at < |src|
    ensures r.Ok? ==> r.next > at && r.tokens != []
    decreases |src| - at, 0
  {
    var c := src[at];
    if c == 'i' then Integer(src, at)
    else if IsDigit(c) then String(src, at)
    else if c == 'l' || c == 'd' then
      match Items(src, at + 1)
      case Err(e) => Err(e)
      case Ok(inner, next) =>
        Ok(Bracketed(c == 'l', at, inner, next), next + 1)
    else Err(BadData)
  }

  /** Items up to the closing 'e' or the end of the source. */
  function Items(src: string, at: nat): (r: Result)
    ensures r.Ok? ==> r.next >= at
    decreases |src| - at, 1
  {
    if at >= |src| || src[at] == 'e' then Ok([], at)
    else
      match Item(src, at)
      case Err(e) => Err(e)
      case Ok(first, next) => Join(first, Items(src, next))
  }

  function Join(first: seq<Token>, rest: Result): Result {
    match rest
    case Err(e) => Err(e)
    case Ok(tokens, next) => Ok(first + tokens, next)
  }

  /** A whole source: items until nothing is left; a stray 'e' is bad data. */
  function Document(src: string, at: nat): Result
    decreases |src| - at
  {
    if at >= |src| then Ok([], at)
    else
      match Item(src, at)
      case Err(e) => Err(e)
      case Ok(first, next) => Join(first, Document(src, next))
  }

  // ----- the parser

  method Strtol(src: string, at: nat) returns (end: nat)
    requires at <= |src|
    ensures end == StrtolEnd(src, at)
  {
    var j := at;
    while j < |src| && IsSpace(src[j])
      invariant at <= j <= |src| && SkipSpace(src, at) == SkipSpace(src, j)
    {
      j := j + 1;
    }
    if j < |src| && (src[j] == '+' || src[j] == '-') {
      j := j + 1;
    }
    end := ScanDigits(src, j);
    if end == j {
      end := at;
    }
  }

  method ScanDigits(src: string, at: nat) returns (end: nat)
    requires at <= |src|
    ensures end == DigitsEnd(src, at)
  {
    end := at;
    while end < |src| && IsDigit(src[end])
      invariant at <= end <= |src| && DigitsEnd(src, at) == DigitsEnd(src, end)
    {
      end := end + 1;
    }
  }

  method ProcessInteger(src: string, at: nat) returns (r: Result)
    requires at < |src|
    ensures r == Integer(src, at)
  {
    var offset := at + 1;
    var end := Strtol(src, offset);
    if end >= |src| || src[end] != 'e' {
      return Err(BadInteger);
    }
    return Ok([Token(Int, offset, end)], end + 1);
  }

  method ProcessString(src: string, at: nat) returns (r: Result)
    requires at < |src|
    ensures r == String(src, at)
  {
    var delim := ScanDigits(src, at);
    if delim >= |src| || src[delim] != ':' {
      return Err(BadString);
    }
    var offset := delim + 1;
    var length := StrtolValue(src, at);
    return Ok([Token(Str, offset, offset + length)], offset + length);
  }

  method ProcessStruct(src: string, at: nat, isList: bool) returns (r: Result)
    requires at < |src| && src[at] == if isList then 'l' else 'd'
    ensures r == Item(src, at)
    decreases |src| - at, 0
  {
    var ret := [Token(if isList then ListStart else DictStart, at, 0)];
    var offset := at + 1;
    while offset < |src| && src[offset] != 'e'
      invariant offset > at
      invariant Join([Token(if isList then ListStart else DictStart, at, 0)], Items(src, at + 1))
                == Join(ret, Items(src, offset))
      decreases |src| - offset
    {
      var res := Parse(src, offset);
      if res.Err? {
        return res;
      }
      assert Items(src, offset) == Join(res.tokens, Items(src, res.next));
      JoinTwice(ret, res.tokens, Items(src, res.next));
      ret := ret + res.tokens;
      offset := res.next;
    }
    assert Items(src, offset) == Ok([], offset);
    assert ret + [] == ret;
    ret := ret + [Token(if isList then ListEnd else DictEnd, offset, 0)];
    return Ok(ret, offset + 1);
  }

  lemma JoinTwice(a: seq<Token>, b: seq<Token>, rest: Result)
    ensures Join(a, Join(b, rest)) == Join(a + b, rest)
  {
    if rest.Ok? {
      assert a + (b + rest.tokens) == a + b + rest.tokens;
    }
  }

  method Parse(src: string, at: nat) returns (r: Result)
    requires at < |src|
    ensures r == Item(src, at)
    decreases |src| - at, 1
  {
    var c := src[at];
    if c == 'i' {
      r := ProcessInteger(src, at);
    } else if IsDigit(c) {
      r := ProcessString(src, at);
    } else if c == 'l' {
      r := ProcessStruct(src, at, true);
    } else if c == 'd' {
      r := ProcessStruct(src, at, false);
    } else {
      r := Err(BadData);
    }
  }

  /** The whole source, whatever it is: every input is tokenized or refused. */
  method ParseAll(src: string) returns (r: Result)
    ensures r == Document(src, 0)
  {
    var offset := 0;
    var ret := [];
    while offset < |src|
      invariant Document(src, 0) == Join(ret, Document(src, offset))
      decreases |src| - offset
    {
      var res := Parse(src, offset);
      if res.Err? {
        return res;
      }
      JoinTwice(ret, res.tokens, Document(src, res.next));
      ret := ret + res.tokens;
      offset := res.next;
    }
    assert ret + [] == ret;
    return Ok(ret, offset);
  }
}
