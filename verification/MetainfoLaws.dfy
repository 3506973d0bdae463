/** What is hashed of an encoded metainfo file, for every kind of `info` value. */
module MetainfoLaws {
  import opened Bencode
  import opened BencodeLaws
  import opened InfoSlices
  import opened InfoLaws

  lemma EncodeUnfolds(es: seq<Entry>, key: string, value: string, rest: string)
    requires es != [] && key == EncodeString(es[0].key) && value == Encode(es[0].value)
             && rest == EncodeEntries(es[1..])
    ensures EncodeEntries(es) == key + (value + rest)
  {
  }

  lemma {:induction false} EncodeAppend(a: seq<Entry>, b: seq<Entry>)
    ensures EncodeEntries(a + b) == EncodeEntries(a) + EncodeEntries(b)
    decreases |a|
  {
    if a == [] {
      assert a + b == b;
    } else {
      var key, value, rest := EncodeString(a[0].key), Encode(a[0].value), EncodeEntries(a[1..]);
      assert (a + b)[0] == a[0] && (a + b)[1..] == a[1..] + b;
      EncodeAppend(a[1..], b);
      EncodeUnfolds(a, key, value, rest);
      EncodeUnfolds(a + b, key, value, rest + EncodeEntries(b));
      Regroup(key, value, rest, EncodeEntries(b));
    }
  }

  lemma {:induction false} FlattenAppend(a: seq<Entry>, b: seq<Entry>, at: nat, mid: nat)
    requires mid == at + |EncodeEntries(a)|
    ensures FlattenEntries(a + b, at) == FlattenEntries(a, at) + FlattenEntries(b, mid)
    decreases |a|
  {
    if a == [] {
      assert a + b == b;
    } else {
      var value := at + |EncodeString(a[0].key)|;
      var next := value + |Encode(a[0].value)|;
      assert (a + b)[0] == a[0] && (a + b)[1..] == a[1..] + b;
      FlattenAppend(a[1..], b, next, mid);
      EntriesUnfold(a, at, value, next);
      EntriesUnfold(a + b, at, value, next);
      Regroup([StringToken(a[0].key, at)], Flatten(a[0].value, value), FlattenEntries(a[1..], next),
        FlattenEntries(b, mid));
    }
  }

  lemma Regroup<T>(x: seq<T>, y: seq<T>, z: seq<T>, w: seq<T>)
    ensures x + (y + (z + w)) == x + (y + z) + w
  {
  }

  lemma {:induction false} DigitsMeasured(n: nat)
    ensures |Digits(n)| == NumDigits(n) && (Digits(n)[0] == '0' <==> n == 0)
  {
    if n >= 10 {
      DigitsMeasured(n / 10);
      assert Digits(n)[0] == Digits(n / 10)[0];
    }
  }

  /** A key written by the encoder has a plain prefix unless it is empty. */
  lemma KeyPrefix(src: string, q: nat, key: string)
    requires Holds(src, q, EncodeString(key)) && |src| <= LONG_MAX
    ensures q < |src| && (PlainPrefix(src, q) <==> key != "")
  {
    var digits := Digits(|key|);
    HoldsSplit(src, q, digits + ":", key);
    HoldsSplit(src, q, digits, ":");
    StartsWith(src, q, digits);
    StartsWith(src, q + |digits|, ":");
    ReadsDigits(src, q, |key|);
    DigitsMeasured(|key|);
    MaxLongDigits();
    NumDigitsMonotone(|key|, LONG_MAX);
  }

  lemma SpanHeld(src: string, p: nat, part: string)
    requires Holds(src, p, part)
    ensures Span(src, p, p + |part|) == part
  {
  }

  /** A metainfo dictionary with an `info` entry between other entries. */
  function Metainfo(before: seq<Entry>, v: Value, after: seq<Entry>): Value {
    DictValue(before + ([Entry("info", v)] + after))
  }

  /** Where its parts stand. */
  lemma {:induction false} MetainfoHolds(before: seq<Entry>, v: Value, after: seq<Entry>, src: string, a: nat,
                                         p: nat, q: nat)
    requires src == Encode(Metainfo(before, v, after))
    requires a == 1 + |EncodeEntries(before)| && p == a + |EncodeString("info")| && q == p + |Encode(v)|
    ensures Holds(src, a, EncodeString("info")) && Holds(src, p, Encode(v)) && Holds(src, q, EncodeEntries(after))
    ensures p < |src| && q < |src| && (after == [] ==> q + 1 == |src|)
  {
    var own := [Entry("info", v)] + after;
    assert own[0] == Entry("info", v) && own[1..] == after;
    OwnEntriesHold(before, own, src, a);
    EntriesHold(src, a, own, p, q);
    ItemStarts(src, p, v);
  }

  lemma {:induction false} OwnEntriesHold(before: seq<Entry>, own: seq<Entry>, src: string, a: nat)
    requires src == Encode(DictValue(before + own)) && a == 1 + |EncodeEntries(before)|
    ensures Holds(src, a, EncodeEntries(own)) && a + |EncodeEntries(own)| + 1 == |src|
  {
    EncodeAppend(before, own);
    assert Holds(src, 0, "d" + EncodeEntries(before + own) + "e");
    HoldsBracketed(src, 0, 'd', EncodeEntries(before + own));
    HoldsSplit(src, 1, EncodeEntries(before), EncodeEntries(own));
  }

  /** Its tokens: those of the entries before, the key, the value, and the rest. */
  lemma {:induction false} MetainfoTokens(before: seq<Entry>, v: Value, after: seq<Entry>, tokens: seq<Token>,
                       a: nat, p: nat, q: nat, k: nat, sub: seq<Token>, j: nat)
    requires tokens == Flatten(Metainfo(before, v, after), 0)
    requires a == 1 + |EncodeEntries(before)| && p == a + |EncodeString("info")| && q == p + |Encode(v)|
    requires k == 2 + |FlattenEntries(before, 1)| && sub == Flatten(v, p) && j == k + |sub|
    ensures j < |tokens| && tokens[0] == Token(DictStart, 0, 0)
    ensures forall m :: 1 <= m < k - 1 ==> tokens[m] == FlattenEntries(before, 1)[m - 1]
    ensures tokens[k - 1] == StringToken("info", a) && Subtokens(tokens, k, sub)
    ensures if after == [] then tokens[j] == Token(DictEnd, q, 0) else tokens[j] == StringToken(after[0].key, q)
  {
    var end := 1 + |EncodeEntries(before + ([Entry("info", v)] + after))|;
    MetainfoUnfolds(before, v, after, tokens, a, p, q, end);
    TokenPositions(Token(DictStart, 0, 0), FlattenEntries(before, 1), StringToken("info", a), sub,
                   FlattenEntries(after, q), Token(DictEnd, end, 0), tokens);
    FirstKeyToken(after, q);
  }

  /** The tokens of the value stand from k on. */
  ghost predicate Subtokens(tokens: seq<Token>, k: nat, sub: seq<Token>) {
    k + |sub| <= |tokens| && forall m :: 0 <= m < |sub| ==> tokens[k + m] == sub[m]
  }

  lemma {:induction false} MetainfoUnfolds(before: seq<Entry>, v: Value, after: seq<Entry>, tokens: seq<Token>,
                        a: nat, p: nat, q: nat, end: nat)
    requires tokens == Flatten(Metainfo(before, v, after), 0)
    requires a == 1 + |EncodeEntries(before)| && p == a + |EncodeString("info")| && q == p + |Encode(v)|
    requires end == 1 + |EncodeEntries(before + ([Entry("info", v)] + after))|
    ensures tokens == Bracketed(false, 0, FlattenEntries(before, 1)
                                          + ([StringToken("info", a)] + (Flatten(v, p) + FlattenEntries(after, q))),
                                            end)
    ensures after == [] ==> end == q
  {
    var own := [Entry("info", v)] + after;
    assert own[0] == Entry("info", v) && own[1..] == after;
    DictUnfolds(before + own, 0, FlattenEntries(before + own, 1), end);
    EncodeAppend(before, own);
    EncodeUnfolds(own, EncodeString("info"), Encode(v), EncodeEntries(after));
    FlattenAppend(before, own, 1, a);
    EntriesUnfold(own, a, p, q);
  }

  lemma FirstKeyToken(after: seq<Entry>, q: nat)
    ensures after == [] ==> FlattenEntries(after, q) == []
    ensures after != [] ==>
              FlattenEntries(after, q) != [] && FlattenEntries(after, q)[0] == StringToken(after[0].key, q)
  {
    if after != [] {
      var mid := q + |EncodeString(after[0].key)|;
      EntriesUnfold(after, q, mid, mid + |Encode(after[0].value)|);
    }
  }

  lemma TokenPositions(opening: Token, front: seq<Token>, key: Token, sub: seq<Token>, rest: seq<Token>, closing: Token,
                       tokens: seq<Token>)
    requires tokens == [opening] + (front + ([key] + (sub + rest))) + [closing]
    ensures |tokens| == |front| + |sub| + |rest| + 3 && tokens[0] == opening && tokens[1 + |front|] == key
    ensures forall m :: 1 <= m < 1 + |front| ==> tokens[m] == front[m - 1]
    ensures forall m :: 0 <= m < |sub| ==> tokens[2 + |front| + m] == sub[m]
    ensures tokens[2 + |front| + |sub|] == if rest == [] then closing else rest[0]
  {
  }

  lemma InfoFound(src: string, tokens: seq<Token>, before: seq<Token>, a: nat)
    requires |src| <= LONG_MAX && Holds(src, a, EncodeString("info"))
    requires 1 + |before| < |tokens| && tokens[0] == Token(DictStart, 0, 0)
    requires forall m :: 1 <= m < 1 + |before| ==> tokens[m] == before[m - 1]
    requires forall m :: 0 <= m < |before| ==> Text(before[m], src) != "info"
    requires tokens[1 + |before|] == StringToken("info", a)
    ensures FindInfo(tokens, src, 0) == 1 + |before|
  {
    SlicesAreExact(src, a, "info", 0);
    assert Text(tokens[0], src) == "";
    FindInfoIs(tokens, src, 1 + |before|);
  }

  /** What stands behind the value: the closing bracket, or the next key. */
  lemma {:induction false} NextStands(src: string, q: nat, after: seq<Entry>, t: Token)
    requires |src| <= LONG_MAX && Holds(src, q, EncodeEntries(after)) && q < |src|
    requires t == if after == [] then Token(DictEnd, q, 0) else StringToken(after[0].key, q)
    ensures Begins(src, t, q) && (t.kind.Str? <==> after != [])
    ensures (t.kind.Str? ==> PlainPrefix(src, q)) <==> NextIsPlain(after)
    ensures t.kind.Str? && !NextIsPlain(after) ==> t.end <= t.start
  {
    if after != [] {
      HoldsSplit(src, q, EncodeString(after[0].key), Encode(after[0].value) + EncodeEntries(after[1..]));
      KeyPrefix(src, q, after[0].key);
      StringReads(src, q, after[0].key);
      NextKeyStands(src, q, after[0].key, t);
    }
  }

  lemma {:induction false} NextKeyStands(src: string, q: nat, key: string, t: Token)
    requires Holds(src, q, EncodeString(key)) && t == StringToken(key, q) && q < |src|
    requires Item(src, q) == Ok([t], q + |EncodeString(key)|)
    ensures Begins(src, t, q)
  {
    StartsWith(src, q, EncodeString(key));
  }

  /** The key behind the value, if there is one, is not empty. */
  predicate NextIsPlain(after: seq<Entry>) {
    after == [] || after[0].key != ""
  }

  lemma {:induction false} ValueSpan(src: string, p: nat, v: Value, q: nat)
    requires StandsIn(src, v, p, q)
    ensures p < q && p < |src| && Item(src, p) == Ok(Flatten(v, p), q) && Span(src, p, q) == Encode(v)
  {
    ItemReads(src, p, v, q);
    SpanHeld(src, p, Encode(v));
  }

  /** What the cases below need to know about a metainfo dictionary: the value's tokens stand
      from k on, its bytes are [p, q), and t is the token behind it. */
  ghost predicate Parsed(src: string, tokens: seq<Token>, v: Value, k: nat, p: nat, q: nat, sub: seq<Token>,
                         j: nat, t: Token)
  {
    && k == FindInfo(tokens, src, 0) + 1 && j == k + |sub| < |tokens| && tokens[j] == t
    && sub == Flatten(v, p) && Subtokens(tokens, k, sub) && StandsIn(src, v, p, q)
  }

  ghost predicate StandsIn(src: string, v: Value, p: nat, q: nat) {
    Holds(src, p, Encode(v)) && q == p + |Encode(v)| < |src| <= LONG_MAX
  }

  lemma {:induction false} MetainfoParses(before: seq<Entry>, v: Value, after: seq<Entry>, src: string,
                                          tokens: seq<Token>)
    returns (k: nat, p: nat, q: nat, sub: seq<Token>, j: nat, t: Token)
    requires src == Encode(Metainfo(before, v, after)) && tokens == Flatten(Metainfo(before, v, after), 0)
    requires |src| <= LONG_MAX
    requires forall m :: 0 <= m < |FlattenEntries(before, 1)| ==> Text(FlattenEntries(before, 1)[m], src) != "info"
    ensures Parsed(src, tokens, v, k, p, q, sub, j, t) && Holds(src, q, EncodeEntries(after))
    ensures t == if after == [] then Token(DictEnd, q, 0) else StringToken(after[0].key, q)
  {
    var a := 1 + |EncodeEntries(before)|;
    p := a + |EncodeString("info")|;
    q := p + |Encode(v)|;
    k := 2 + |FlattenEntries(before, 1)|;
    sub := Flatten(v, p);
    t := if after == [] then Token(DictEnd, q, 0) else StringToken(after[0].key, q);
    j := k + |sub|;
    MetainfoParsedAt(before, v, after, src, tokens, a, p, q, k, sub, j, t);
  }

  lemma {:induction false} MetainfoParsedAt(before: seq<Entry>, v: Value, after: seq<Entry>, src: string,
                                            tokens: seq<Token>, a: nat, p: nat, q: nat, k: nat, sub: seq<Token>,
                                            j: nat, t: Token)
    requires src == Encode(Metainfo(before, v, after)) && tokens == Flatten(Metainfo(before, v, after), 0)
    requires |src| <= LONG_MAX
    requires forall m :: 0 <= m < |FlattenEntries(before, 1)| ==> Text(FlattenEntries(before, 1)[m], src) != "info"
    requires a == 1 + |EncodeEntries(before)| && p == a + |EncodeString("info")| && q == p + |Encode(v)|
    requires k == 2 + |FlattenEntries(before, 1)| && sub == Flatten(v, p) && j == k + |sub|
    requires t == if after == [] then Token(DictEnd, q, 0) else StringToken(after[0].key, q)
    ensures Parsed(src, tokens, v, k, p, q, sub, j, t) && Holds(src, q, EncodeEntries(after))
  {
    MetainfoHolds(before, v, after, src, a, p, q);
    MetainfoTokens(before, v, after, tokens, a, p, q, k, sub, j);
    InfoFound(src, tokens, FlattenEntries(before, 1), a);
  }

  // ----- the three kinds of value

  /** A dictionary: exact if and only if the key behind it is not empty. */
  lemma {:induction false} DictSlice(src: string, tokens: seq<Token>, v: Value, k: nat, p: nat, q: nat,
                                     sub: seq<Token>, j: nat, t: Token, after: seq<Entry>)
    requires Document(src, 0).Ok? && tokens == Document(src, 0).tokens && |src| <= LONG_MAX
    requires Parsed(src, tokens, v, k, p, q, sub, j, t) && v.DictValue? && Holds(src, q, EncodeEntries(after))
    requires t == if after == [] then Token(DictEnd, q, 0) else StringToken(after[0].key, q)
    ensures InfoSliceSpec(tokens, src) == Slice(Encode(v)) <==> NextIsPlain(after)
  {
    DictFirst(v, p);
    ValueSpan(src, p, v, q);
    assert tokens[k + 0] == sub[0];
    DictScan(src, tokens, k, p, sub, q, j);
    NextStands(src, q, after, t);
    SliceIs(src, tokens, k, j, p, q, t, Encode(v), NextIsPlain(after));
  }

  lemma {:induction false} DictScan(src: string, tokens: seq<Token>, k: nat, p: nat, sub: seq<Token>, q: nat, j: nat)
    requires Document(src, 0).Ok? && tokens == Document(src, 0).tokens && p < |src| && Item(src, p) == Ok(sub, q)
    requires j == k + |sub| < |tokens| && tokens[k] == Token(DictStart, p, 0)
    ensures j == Run(tokens, k + 1, Depth(tokens[k].kind, 0))
  {
    var j', q' := ScanEndsAfterDict(src, tokens, k, p);
  }

  /** The slice from p up to a token t that stands at q. */
  lemma {:induction false} SliceIs(src: string, tokens: seq<Token>, k: nat, j: nat, p: nat, q: nat, t: Token,
                                   text: string, plain: bool)
    requires k == FindInfo(tokens, src, 0) + 1 < |tokens|
             && j == Run(tokens, k + 1, Depth(tokens[k].kind, 0)) < |tokens|
    requires p == tokens[k].start && p < |src| && p <= q && tokens[j] == t && Begins(src, t, q)
    requires Span(src, p, q) == text && q < |src| && ((t.kind.Str? ==> PlainPrefix(src, q)) <==> plain)
    ensures InfoSliceSpec(tokens, src) == Slice(text) <==> plain
    ensures t.kind.Str? && t.end <= t.start ==> InfoSliceSpec(tokens, src) == Undefined
  {
    SpecAt(tokens, src, k, j);
    SliceBeforeExact(src, t, p, q);
  }

  lemma DictFirst(v: Value, p: nat)
    requires v.DictValue?
    ensures Flatten(v, p)[0] == Token(DictStart, p, 0)
  {
    DictUnfolds(v.entries, p, FlattenEntries(v.entries, p + 1), p + 1 + |EncodeEntries(v.entries)|);
  }

  /** A string or an integer: the slice starts at its text, so what is before that is missing. */
  lemma {:induction false} ScalarSlice(src: string, tokens: seq<Token>, v: Value, k: nat, p: nat, q: nat,
                                       sub: seq<Token>, j: nat, t: Token, after: seq<Entry>)
    requires Parsed(src, tokens, v, k, p, q, sub, j, t) && (v.IntValue? || v.StrValue?) && |src| <= LONG_MAX
    requires Holds(src, q, EncodeEntries(after))
    requires t == if after == [] then Token(DictEnd, q, 0) else StringToken(after[0].key, q)
    ensures p < tokens[k].start <= q
    ensures InfoSliceSpec(tokens, src) == if NextIsPlain(after) then Slice(Span(src, tokens[k].start, q)) else Undefined
  {
    ScalarToken(v, p, q);
    assert tokens[k + 0] == sub[0];
    NextStands(src, q, after, t);
    var from := tokens[k].start;
    SliceIs(src, tokens, k, j, from, q, t, Span(src, from, q), NextIsPlain(after));
  }

  lemma ScalarToken(v: Value, p: nat, q: nat)
    requires (v.IntValue? || v.StrValue?) && q == p + |Encode(v)|
    ensures |Flatten(v, p)| == 1 && p < Flatten(v, p)[0].start <= q && (Flatten(v, p)[0].kind in {Int, Str})
  {
  }

  /** A list: the scan stops after its first bracket, and the slice is at most that. */
  lemma {:induction false} ListSlice(src: string, tokens: seq<Token>, v: Value, k: nat, p: nat, q: nat,
                                     sub: seq<Token>, j: nat, t: Token)
    requires Parsed(src, tokens, v, k, p, q, sub, j, t) && v.ListValue? && |src| <= LONG_MAX
    ensures InfoSliceSpec(tokens, src) ==
            if v.items != [] && v.items[0] == StrValue("") then Undefined else Slice("l")
  {
    ListFirst(src, v, p, q, sub);
    assert tokens[k + 0] == sub[0] && tokens[k + 1] == sub[1];
    assert Span(src, p, p + 1) == "l";
    SliceIs(src, tokens, k, k + 1, p, p + 1, sub[1], "l", !(v.items != [] && v.items[0] == StrValue("")));
  }

  /** What follows the bracket of a list. */
  lemma {:induction false} ListFirst(src: string, v: Value, p: nat, q: nat, sub: seq<Token>)
    requires v.ListValue? && Holds(src, p, Encode(v)) && |src| <= LONG_MAX && q == p + |Encode(v)|
    requires sub == Flatten(v, p)
    ensures p + 1 < |src| && src[p] == 'l' && |sub| >= 2 && sub[0] == Token(ListStart, p, 0)
    ensures Begins(src, sub[1], p + 1)
    ensures (sub[1].kind.Str? ==> PlainPrefix(src, p + 1)) <==> !(v.items != [] && v.items[0] == StrValue(""))
    ensures sub[1].kind.Str? && !PlainPrefix(src, p + 1) ==> sub[1].end <= sub[1].start
  {
    var end := p + 1 + |EncodeItems(v.items)|;
    HoldsBracketed(src, p, 'l', EncodeItems(v.items));
    ListUnfolds(v.items, p, FlattenItems(v.items, p + 1), end);
    if v.items != [] {
      var next := p + 1 + |Encode(v.items[0])|;
      ItemsUnfold(v.items, p + 1, next);
      HoldsSplit(src, p + 1, Encode(v.items[0]), EncodeItems(v.items[1..]));
      assert sub[1] == Flatten(v.items[0], p + 1)[0];
      FirstItem(src, v.items[0], p + 1, next);
    }
  }

  /** The first token of a value, and whether it is an empty string. */
  lemma {:induction false} FirstItem(src: string, v: Value, p: nat, q: nat)
    requires Holds(src, p, Encode(v)) && |src| <= LONG_MAX && q == p + |Encode(v)|
    ensures p < |src| && var t := Flatten(v, p)[0];
            && Begins(src, t, p) && ((t.kind.Str? ==> PlainPrefix(src, p)) <==> v != StrValue(""))
            && (t.kind.Str? && !PlainPrefix(src, p) ==> t.end <= t.start)
  {
    ItemReads(src, p, v, q);
    ItemStarts(src, p, v);
    ItemBegins(src, p);
    match v
    case IntValue(n) =>
    case StrValue(s) => KeyPrefix(src, p, s);
    case ListValue(items) => ListUnfolds(items, p, FlattenItems(items, p + 1), q - 1);
    case DictValue(entries) => DictFirst(v, p);
  }

  // ----- every value

  /** For every metainfo dictionary, whatever its `info` value, in which nothing before the key
      reads "info": the hashed slice is the encoding of that value if and only if the value is
      a dictionary and the key behind it, if there is one, is not empty. */
  lemma {:induction false} EncodedInfoIsHashed(before: seq<Entry>, v: Value, after: seq<Entry>, src: string,
                                               tokens: seq<Token>)
    requires src == Encode(Metainfo(before, v, after)) && tokens == Flatten(Metainfo(before, v, after), 0)
    requires |src| <= LONG_MAX
    requires forall m :: 0 <= m < |FlattenEntries(before, 1)| ==> Text(FlattenEntries(before, 1)[m], src) != "info"
    ensures Document(src, 0) == Ok(tokens, |src|)
    ensures InfoSliceSpec(tokens, src) == Slice(Encode(v)) <==> v.DictValue? && NextIsPlain(after)
  {
    DocumentReads(Metainfo(before, v, after));
    var k, p, q, sub, j, t := MetainfoParses(before, v, after, src, tokens);
    if v.DictValue? {
      DictSlice(src, tokens, v, k, p, q, sub, j, t, after);
    } else if v.ListValue? {
      ListSlice(src, tokens, v, k, p, q, sub, j, t);
      assert |Encode(v)| >= 2;
    } else {
      ScalarSlice(src, tokens, v, k, p, q, sub, j, t, after);
      assert |Encode(v)| == q - p && |Span(src, tokens[k].start, q)| == q - tokens[k].start;
    }
  }
}
