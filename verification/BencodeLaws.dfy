/** Laws of the tokenizer: brackets match on every input, and encodings read back. */
module BencodeLaws {
  import opened Bencode

  // ----- brackets

  /** Runs the brackets of a token list on a stack of open lists and dictionaries. */
  function Brackets(tokens: seq<Token>, open: seq<Kind>): (r: (bool, seq<Kind>))
    decreases |tokens|
  {
    if tokens == [] then (true, open)
    else
      match tokens[0].kind
      case Int => Brackets(tokens[1..], open)
      case Str => Brackets(tokens[1..], open)
      case ListStart => Brackets(tokens[1..], [ListStart] + open)
      case DictStart => Brackets(tokens[1..], [DictStart] + open)
      case ListEnd => if open != [] && open[0] == ListStart then Brackets(tokens[1..], open[1..]) else (false, open)
      case DictEnd => if open != [] && open[0] == DictStart then Brackets(tokens[1..], open[1..]) else (false, open)
  }

  lemma {:induction false} BracketsAppend(a: seq<Token>, b: seq<Token>, open: seq<Kind>)
    requires Brackets(a, open).0
    ensures Brackets(a + b, open) == Brackets(b, Brackets(a, open).1)
    decreases |a|
  {
    if a == [] {
      assert a + b == b;
    } else {
      assert (a + b)[1..] == a[1..] + b;
      match a[0].kind
      case Int => BracketsAppend(a[1..], b, open);
      case Str => BracketsAppend(a[1..], b, open);
      case ListStart => BracketsAppend(a[1..], b, [ListStart] + open);
      case DictStart => BracketsAppend(a[1..], b, [DictStart] + open);
      case ListEnd => BracketsAppend(a[1..], b, open[1..]);
      case DictEnd => BracketsAppend(a[1..], b, open[1..]);
    }
  }

  lemma {:induction false} ItemBalanced(src: string, at: nat, open: seq<Kind>)
    requires at < |src| && Item(src, at).Ok?
    ensures Brackets(Item(src, at).tokens, open) == (true, open)
    decreases |src| - at, 0
  {
    if src[at] == 'l' || src[at] == 'd' {
      var inner := Items(src, at + 1);
      var (kind, closing) := if src[at] == 'l' then (ListStart, ListEnd) else (DictStart, DictEnd);
      ItemsBalanced(src, at + 1, [kind] + open);
      BracketsAppend(inner.tokens, [Token(closing, inner.next, 0)], [kind] + open);
      assert Item(src, at).tokens[1..] == inner.tokens + [Token(closing, inner.next, 0)];
      assert ([kind] + open)[1..] == open;
    }
  }

  lemma {:induction false} ItemsBalanced(src: string, at: nat, open: seq<Kind>)
    requires Items(src, at).Ok?
    ensures Brackets(Items(src, at).tokens, open) == (true, open)
    decreases |src| - at, 1
  {
    if at < |src| && src[at] != 'e' {
      var first := Item(src, at);
      ItemBalanced(src, at, open);
      ItemsBalanced(src, first.next, open);
      BracketsAppend(first.tokens, Items(src, first.next).tokens, open);
    }
  }

  /** Whatever the source, truncated or not, a normal return has matching brackets. */
  lemma {:induction false} DocumentBalanced(src: string, at: nat, open: seq<Kind>)
    requires Document(src, at).Ok?
    ensures Brackets(Document(src, at).tokens, open) == (true, open)
    decreases |src| - at
  {
    if at < |src| {
      var first := Item(src, at);
      ItemBalanced(src, at, open);
      DocumentBalanced(src, first.next, open);
      BracketsAppend(first.tokens, Document(src, first.next).tokens, open);
    }
  }

  // ----- encoding

  datatype Value =
    | IntValue(n: int)
    | StrValue(s: string)
    | ListValue(items: seq<Value>)
    | DictValue(entries: seq<Entry>)

  datatype Entry = Entry(key: string, value: Value)

  function Digits(n: nat): (s: string)
    ensures |s| > 0 && forall k :: 0 <= k < |s| ==> IsDigit(s[k])
  {
    if n < 10 then [('0' as int + n) as char] else Digits(n / 10) + [('0' as int + n % 10) as char]
  }

  function IntText(n: int): string {
    if n < 0 then "-" + Digits(-n) else Digits(n)
  }

  function EncodeString(s: string): (e: string)
    ensures |e| > 0 && IsDigit(e[0])
  {
    Digits(|s|) + ":" + s
  }

  function Encode(v: Value): (s: string)
    ensures |s| > 0 && s[0] != 'e'
    decreases v
  {
    match v
    case IntValue(n) => "i" + IntText(n) + "e"
    case StrValue(s) => EncodeString(s)
    case ListValue(items) => "l" + EncodeItems(items) + "e"
    case DictValue(entries) => "d" + EncodeEntries(entries) + "e"
  }

  function EncodeItems(vs: seq<Value>): string
    decreases vs
  {
    if vs == [] then "" else Encode(vs[0]) + EncodeItems(vs[1..])
  }

  function EncodeEntries(es: seq<Entry>): string
    decreases es
  {
    if es == [] then ""
    else EncodeString(es[0].key) + (Encode(es[0].value) + EncodeEntries(es[1..]))
  }

  function StringToken(s: string, at: nat): Token {
    Token(Str, at + |Digits(|s|)| + 1, at + |EncodeString(s)|)
  }

  /** The tokens of a value whose encoding starts at `at`. */
  function Flatten(v: Value, at: nat): (ts: seq<Token>)
    ensures ts != []
    decreases v
  {
    match v
    case IntValue(n) => [Token(Int, at + 1, at + 1 + |IntText(n)|)]
    case StrValue(s) => [StringToken(s, at)]
    case ListValue(items) =>
      Bracketed(true, at, FlattenItems(items, at + 1), at + 1 + |EncodeItems(items)|)
    case DictValue(entries) =>
      Bracketed(false, at, FlattenEntries(entries, at + 1), at + 1 + |EncodeEntries(entries)|)
  }

  function FlattenItems(vs: seq<Value>, at: nat): seq<Token>
    decreases vs
  {
    if vs == [] then [] else Flatten(vs[0], at) + FlattenItems(vs[1..], at + |Encode(vs[0])|)
  }

  function FlattenEntries(es: seq<Entry>, at: nat): seq<Token>
    decreases es
  {
    if es == [] then []
    else
      var next := at + |EncodeString(es[0].key)|;
      [StringToken(es[0].key, at)]
        + (Flatten(es[0].value, next) + FlattenEntries(es[1..], next + |Encode(es[0].value)|))
  }

  // ----- reading an encoding back

  /** The source holds `part` from `at` on. */
  ghost predicate Holds(src: string, at: nat, part: string) {
    at + |part| <= |src| && forall k :: 0 <= k < |part| ==> src[at + k] == part[k]
  }

  lemma HoldsSplit(src: string, at: nat, a: string, b: string)
    ensures Holds(src, at, a + b) <==> Holds(src, at, a) && Holds(src, at + |a|, b)
  {
    var ab := a + b;
    if Holds(src, at, ab) {
      forall k | 0 <= k < |a| ensures src[at + k] == a[k] { assert ab[k] == a[k]; }
      forall k | 0 <= k < |b| ensures src[at + |a| + k] == b[k] { assert ab[|a| + k] == b[k]; }
    }
    if Holds(src, at, a) && Holds(src, at + |a|, b) {
      forall k | 0 <= k < |ab| ensures src[at + k] == ab[k] {
        if k >= |a| { assert src[at + |a| + (k - |a|)] == b[k - |a|]; }
      }
    }
  }

  lemma {:induction false} DecimalOfDigits(n: nat)
    ensures Decimal(Digits(n)) == n
  {
    var d := Digits(n);
    if n < 10 {
      assert d[..0] == [];
      assert Decimal([]) == 0;
    } else {
      assert d[..|d| - 1] == Digits(n / 10);
      DecimalOfDigits(n / 10);
    }
  }

  lemma {:induction false} DigitsEndAt(src: string, at: nat, e: nat)
    requires at <= e <= |src| && (forall k :: at <= k < e ==> IsDigit(src[k])) && (e < |src| ==> !IsDigit(src[e]))
    ensures DigitsEnd(src, at) == e
    decreases e - at
  {
    if at < e { DigitsEndAt(src, at + 1, e); }
  }

  /** A decimal number followed by something else is read to its end. */
  lemma ReadsDigits(src: string, at: nat, n: nat)
    requires Holds(src, at, Digits(n))
    requires var e := at + |Digits(n)|; e < |src| && !IsDigit(src[e])
    ensures DigitsEnd(src, at) == at + |Digits(n)| && src[at..DigitsEnd(src, at)] == Digits(n)
  {
    forall k | at <= k < at + |Digits(n)| ensures IsDigit(src[k]) {
      assert src[at + (k - at)] == Digits(n)[k - at];
    }
    DigitsEndAt(src, at, at + |Digits(n)|);
  }

  lemma StrtolAt(src: string, i: nat, from: nat, end: nat)
    requires i < |src| && !IsSpace(src[i]) && from <= |src|
    requires from == if src[i] == '+' || src[i] == '-' then i + 1 else i
    requires DigitsEnd(src, from) == end && from < end
    ensures StrtolEnd(src, i) == end
  {
  }

  lemma IntTextRead(src: string, at: nat, n: int, end: nat)
    requires Holds(src, at, IntText(n)) && end == at + |IntText(n)| < |src| && !IsDigit(src[end])
    ensures StrtolEnd(src, at) == end
  {
    StartsWith(src, at, IntText(n));
    if n < 0 {
      HoldsSplit(src, at, "-", Digits(-n));
      ReadsDigits(src, at + 1, -n);
      StrtolAt(src, at, at + 1, end);
    } else {
      ReadsDigits(src, at, n);
      StrtolAt(src, at, at, end);
    }
  }

  lemma IntegerReads(src: string, at: nat, n: int)
    requires Holds(src, at, Encode(IntValue(n)))
    ensures Item(src, at) == Ok(Flatten(IntValue(n), at), at + |Encode(IntValue(n))|)
  {
    HoldsBracketed(src, at, 'i', IntText(n));
    IntTextRead(src, at + 1, n, at + 1 + |IntText(n)|);
  }

  lemma StringReads(src: string, at: nat, s: string)
    requires Holds(src, at, EncodeString(s)) && |src| <= LONG_MAX
    ensures Item(src, at) == Ok([StringToken(s, at)], at + |EncodeString(s)|)
  {
    var digits := Digits(|s|);
    var delim := at + |digits|;
    HoldsSplit(src, at, digits + ":", s);
    HoldsSplit(src, at, digits, ":");
    StartsWith(src, at, digits);
    StartsWith(src, delim, ":");
    ReadsDigits(src, at, |s|);
    DecimalOfDigits(|s|);
    StringItem(src, at, delim, |s|);
  }

  lemma {:induction false} StringItem(src: string, at: nat, delim: nat, length: nat)
    requires at < |src| && IsDigit(src[at]) && DigitsEnd(src, at) == delim < |src| && src[delim] == ':'
    requires StrtolValue(src, at) == length
    ensures Item(src, at) == Ok([Token(Str, delim + 1, delim + 1 + length)], delim + 1 + length)
  {
  }

  lemma HoldsBracketed(src: string, at: nat, c: char, body: string)
    requires Holds(src, at, [c] + body + "e")
    ensures at + 1 + |body| < |src| && src[at] == c && Holds(src, at + 1, body) && src[at + 1 + |body|] == 'e'
  {
    HoldsSplit(src, at, [c] + body, "e");
    HoldsSplit(src, at, [c], body);
    assert src[at + 0] == [c][0];
    assert src[at + |[c] + body| + 0] == "e"[0];
  }

  lemma StartsWith(src: string, at: nat, part: string)
    requires Holds(src, at, part) && part != []
    ensures at < |src| && src[at] == part[0]
  {
    assert src[at + 0] == part[0];
  }

  lemma ItemsStep(src: string, at: nat, first: seq<Token>, mid: nat, rest: seq<Token>, next: nat)
    requires at < |src| && src[at] != 'e' && Item(src, at) == Ok(first, mid) && Items(src, mid) == Ok(rest, next)
    ensures Items(src, at) == Ok(first + rest, next)
  {
  }

  lemma ListItem(src: string, at: nat, inner: seq<Token>, end: nat)
    requires at < |src| && src[at] == 'l' && Items(src, at + 1) == Ok(inner, end)
    ensures Item(src, at) == Ok(Bracketed(true, at, inner, end), end + 1)
  {
  }

  lemma DictItem(src: string, at: nat, inner: seq<Token>, end: nat)
    requires at < |src| && src[at] == 'd' && Items(src, at + 1) == Ok(inner, end)
    ensures Item(src, at) == Ok(Bracketed(false, at, inner, end), end + 1)
  {
  }

  lemma ListUnfolds(items: seq<Value>, at: nat, inner: seq<Token>, end: nat)
    requires inner == FlattenItems(items, at + 1) && end == at + 1 + |EncodeItems(items)|
    ensures Flatten(ListValue(items), at) == Bracketed(true, at, inner, end)
    ensures at + |Encode(ListValue(items))| == end + 1
  {
  }

  lemma DictUnfolds(entries: seq<Entry>, at: nat, inner: seq<Token>, end: nat)
    requires inner == FlattenEntries(entries, at + 1) && end == at + 1 + |EncodeEntries(entries)|
    ensures Flatten(DictValue(entries), at) == Bracketed(false, at, inner, end)
    ensures at + |Encode(DictValue(entries))| == end + 1
  {
  }

  /** Where the parts of a dictionary's entries stand. */
  lemma EntriesHold(src: string, at: nat, es: seq<Entry>, mid: nat, next: nat)
    requires Holds(src, at, EncodeEntries(es)) && es != []
    requires mid == at + |EncodeString(es[0].key)| && next == mid + |Encode(es[0].value)|
    ensures at + |EncodeEntries(es)| == next + |EncodeEntries(es[1..])|
    ensures Holds(src, at, EncodeString(es[0].key)) && Holds(src, mid, Encode(es[0].value))
    ensures Holds(src, next, EncodeEntries(es[1..]))
  {
    var key, value, rest := EncodeString(es[0].key), Encode(es[0].value), EncodeEntries(es[1..]);
    HoldsSplit(src, at, key, value + rest);
    HoldsSplit(src, mid, value, rest);
  }

  /** An encoding starts an item. */
  lemma ItemStarts(src: string, at: nat, v: Value)
    requires Holds(src, at, Encode(v))
    ensures at < |src| && src[at] != 'e'
  {
    StartsWith(src, at, Encode(v));
  }

  lemma StringStarts(src: string, at: nat, s: string)
    requires Holds(src, at, EncodeString(s))
    ensures at < |src| && src[at] != 'e'
  {
    StartsWith(src, at, EncodeString(s));
  }

  lemma EntriesUnfold(es: seq<Entry>, at: nat, mid: nat, next: nat)
    requires es != [] && mid == at + |EncodeString(es[0].key)| && next == mid + |Encode(es[0].value)|
    ensures FlattenEntries(es, at)
         == [StringToken(es[0].key, at)] + (Flatten(es[0].value, mid) + FlattenEntries(es[1..], next))
  {
  }

  lemma EntriesStep(src: string, at: nat, es: seq<Entry>, mid: nat, next: nat, end: nat)
    requires es != [] && mid == at + |EncodeString(es[0].key)| && next == mid + |Encode(es[0].value)|
    requires at < mid < |src| && src[at] != 'e' && src[mid] != 'e'
    requires Item(src, at) == Ok([StringToken(es[0].key, at)], mid)
    requires Item(src, mid) == Ok(Flatten(es[0].value, mid), next)
    requires Items(src, next) == Ok(FlattenEntries(es[1..], next), end)
    ensures Items(src, at) == Ok(FlattenEntries(es, at), end)
  {
    ItemsStep(src, mid, Flatten(es[0].value, mid), next, FlattenEntries(es[1..], next), end);
    ItemsStep(src, at, [StringToken(es[0].key, at)], mid, Flatten(es[0].value, mid) + FlattenEntries(es[1..], next),
      end);
    EntriesUnfold(es, at, mid, next);
  }

  /** Parsing an encoding, wherever it stands in the source, gives exactly the flattened
      tokens with their exact slices and leaves the offset at its end. */
  lemma {:induction false} ItemReads(src: string, at: nat, v: Value, next: nat)
    requires Holds(src, at, Encode(v)) && next == at + |Encode(v)| && |src| <= LONG_MAX
    ensures Item(src, at) == Ok(Flatten(v, at), next)
    decreases v, 0
  {
    match v
    case IntValue(n) => IntegerReads(src, at, n);
    case StrValue(s) => StringReads(src, at, s);
    case ListValue(items) =>
      HoldsBracketed(src, at, 'l', EncodeItems(items));
      var end := at + 1 + |EncodeItems(items)|;
      ItemsRead(src, at + 1, items, end);
      ListItem(src, at, FlattenItems(items, at + 1), end);
      ListUnfolds(items, at, FlattenItems(items, at + 1), end);
    case DictValue(entries) =>
      HoldsBracketed(src, at, 'd', EncodeEntries(entries));
      var end := at + 1 + |EncodeEntries(entries)|;
      EntriesRead(src, at + 1, entries, end);
      DictItem(src, at, FlattenEntries(entries, at + 1), end);
      DictUnfolds(entries, at, FlattenEntries(entries, at + 1), end);
  }

  lemma ItemsUnfold(vs: seq<Value>, at: nat, mid: nat)
    requires vs != [] && mid == at + |Encode(vs[0])|
    ensures FlattenItems(vs, at) == Flatten(vs[0], at) + FlattenItems(vs[1..], mid)
    ensures at + |EncodeItems(vs)| == mid + |EncodeItems(vs[1..])|
  {
  }

  lemma {:induction false} ItemsRead(src: string, at: nat, vs: seq<Value>, end: nat)
    requires Holds(src, at, EncodeItems(vs)) && |src| <= LONG_MAX
    requires end == at + |EncodeItems(vs)| && (end == |src| || src[end] == 'e')
    ensures Items(src, at) == Ok(FlattenItems(vs, at), end)
    decreases vs, 1
  {
    if vs != [] {
      var mid := at + |Encode(vs[0])|;
      HoldsSplit(src, at, Encode(vs[0]), EncodeItems(vs[1..]));
      ItemStarts(src, at, vs[0]);
      ItemsUnfold(vs, at, mid);
      ItemReads(src, at, vs[0], mid);
      ItemsRead(src, mid, vs[1..], end);
      ItemsReadOne(src, at, vs, mid, end);
    }
  }

  lemma {:induction false} ItemsReadOne(src: string, at: nat, vs: seq<Value>, mid: nat, end: nat)
    requires vs != [] && mid == at + |Encode(vs[0])| && at < |src| && src[at] != 'e'
    requires Item(src, at) == Ok(Flatten(vs[0], at), mid) && Items(src, mid) == Ok(FlattenItems(vs[1..], mid), end)
    ensures Items(src, at) == Ok(FlattenItems(vs, at), end)
  {
    ItemsUnfold(vs, at, mid);
    ItemsStep(src, at, Flatten(vs[0], at), mid, FlattenItems(vs[1..], mid), end);
  }

  lemma {:induction false} EntriesRead(src: string, at: nat, es: seq<Entry>, end: nat)
    requires Holds(src, at, EncodeEntries(es)) && |src| <= LONG_MAX
    requires end == at + |EncodeEntries(es)| && (end == |src| || src[end] == 'e')
    ensures Items(src, at) == Ok(FlattenEntries(es, at), end)
    decreases es, 1
  {
    if es != [] {
      var mid := at + |EncodeString(es[0].key)|;
      var next := mid + |Encode(es[0].value)|;
      EntriesHold(src, at, es, mid, next);
      EntriesRead(src, next, es[1..], end);
      ItemReads(src, mid, es[0].value, next);
      StringReads(src, at, es[0].key);
      StringStarts(src, at, es[0].key);
      ItemStarts(src, mid, es[0].value);
      EntriesStep(src, at, es, mid, next, end);
    }
  }

  /** A whole source that is one encoding. */
  lemma DocumentReads(v: Value)
    requires |Encode(v)| <= LONG_MAX
    ensures Document(Encode(v), 0) == Ok(Flatten(v, 0), |Encode(v)|)
  {
    var src := Encode(v);
    ItemReads(src, 0, v, |src|);
    assert Document(src, |src|) == Ok([], |src|);
    assert Flatten(v, 0) + [] == Flatten(v, 0);
  }

  /** The slices are exact: a string token reads back as the string, an integer token as its
      decimal text. */
  lemma SlicesAreExact(src: string, at: nat, s: string, n: int)
    requires |src| <= LONG_MAX
    ensures Holds(src, at, EncodeString(s)) ==>
              var t := StringToken(s, at); t.end <= |src| && src[t.start..t.end] == s
    ensures Holds(src, at, Encode(IntValue(n))) ==>
              var t := Flatten(IntValue(n), at)[0]; t.end <= |src| && src[t.start..t.end] == IntText(n)
  {
    if Holds(src, at, EncodeString(s)) {
      HoldsSplit(src, at, Digits(|s|) + ":", s);
    }
    if Holds(src, at, Encode(IntValue(n))) {
      HoldsSplit(src, at, "i" + IntText(n), "e");
      HoldsSplit(src, at, "i", IntText(n));
    }
  }
}
