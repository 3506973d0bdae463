/** What the tokenizer accepts beyond encodings, and what it refuses. */
module BencodeLimits {
  import opened Bencode
  import opened BencodeLaws

  // ----- integers

  function AfterBlanks(t: string): string {
    if t != "" && IsSpace(t[0]) then AfterBlanks(t[1..]) else t
  }

  function AfterSign(t: string): string {
    if t != "" && (t[0] == '+' || t[0] == '-') then t[1..] else t
  }

  predicate IsDigits(t: string) {
    t != "" && forall k :: 0 <= k < |t| ==> IsDigit(t[k])
  }

  /** Blanks, at most one sign, and at least one digit. */
  predicate IsNumber(t: string) {
    IsDigits(AfterSign(AfterBlanks(t)))
  }

  lemma {:induction false} NumberIsRead(src: string, i: nat, e: nat)
    requires i <= e <= |src| && IsNumber(src[i..e]) && (e < |src| ==> !IsDigit(src[e]))
    ensures i < e && StrtolEnd(src, i) == e
    decreases e - i
  {
    var t := src[i..e];
    assert t != "" && t[0] == src[i];
    if IsSpace(src[i]) {
      assert t[1..] == src[i + 1..e];
      NumberIsRead(src, i + 1, e);
    } else {
      var from := if src[i] == '+' || src[i] == '-' then i + 1 else i;
      assert AfterSign(t) == src[from..e];
      forall k | from <= k < e ensures IsDigit(src[k]) {
        assert src[from..e][k - from] == src[k];
      }
      DigitsEndAt(src, from, e);
      StrtolAt(src, i, from, e);
    }
  }

  lemma {:induction false} ReadIsNumber(src: string, i: nat)
    requires i < |src| && StrtolEnd(src, i) > i
    ensures IsNumber(src[i..StrtolEnd(src, i)])
    decreases |src| - i
  {
    var e := StrtolEnd(src, i);
    var t := src[i..e];
    assert t[0] == src[i];
    if IsSpace(src[i]) {
      assert t[1..] == src[i + 1..e];
      ReadIsNumber(src, i + 1);
    } else {
      var from := if src[i] == '+' || src[i] == '-' then i + 1 else i;
      assert AfterSign(t) == src[from..e];
    }
  }

  /** An integer is accepted exactly when a number in the sense of strtol, or nothing at all,
      stands between the 'i' and an 'e'; its token is that text. Anything else is refused. */
  lemma IntegerOkIff(src: string, at: nat, end: nat)
    requires at < |src| && src[at] == 'i'
    ensures Item(src, at) == Ok([Token(Int, at + 1, end)], end + 1) <==>
            at + 1 <= end < |src| && src[end] == 'e' && (end == at + 1 || IsNumber(src[at + 1..end]))
    ensures Item(src, at).Ok? || Item(src, at) == Err(BadInteger)
    ensures Item(src, at).Ok? ==> Item(src, at) == Ok([Token(Int, at + 1, Item(src, at).next - 1)], Item(src, at).next)
  {
    if at + 1 < end < |src| && src[end] == 'e' && IsNumber(src[at + 1..end]) {
      NumberIsRead(src, at + 1, end);
    } else if end == at + 1 < |src| && src[end] == 'e' {
      assert SkipSpace(src, end) == end && DigitsEnd(src, end) == end;
    }
    if StrtolEnd(src, at + 1) > at + 1 {
      ReadIsNumber(src, at + 1);
    }
  }

  // ----- strings

  function Saturated(n: nat): nat {
    if n < LONG_MAX then n else LONG_MAX
  }

  /** A string is accepted exactly when digits and a ':' stand there; its token is as long as
      they say, even if the source is not. */
  lemma StringOkIff(src: string, at: nat, colon: nat, end: nat)
    requires at < |src| && IsDigit(src[at])
    ensures Item(src, at) == Ok([Token(Str, colon + 1, end)], end) <==>
            EndsPrefix(src, at, colon) && end == colon + 1 + Saturated(Decimal(src[at..colon]))
  {
    if EndsPrefix(src, at, colon) {
      StringTaken(src, at, colon);
    }
    if Item(src, at) == Ok([Token(Str, colon + 1, end)], end) {
      StringParts(src, at, colon, end);
    }
  }

  lemma {:induction false} StringTaken(src: string, at: nat, colon: nat)
    requires at < |src| && IsDigit(src[at]) && EndsPrefix(src, at, colon)
    ensures var end := colon + 1 + Saturated(Decimal(src[at..colon]));
            Item(src, at) == Ok([Token(Str, colon + 1, end)], end)
  {
    DigitsUpTo(src, at, colon);
  }

  lemma {:induction false} StringParts(src: string, at: nat, colon: nat, end: nat)
    requires at < |src| && IsDigit(src[at]) && Item(src, at) == Ok([Token(Str, colon + 1, end)], end)
    ensures EndsPrefix(src, at, colon) && end == colon + 1 + Saturated(Decimal(src[at..colon]))
  {
    assert [Token(Str, colon + 1, end)][0] == Item(src, at).tokens[0];
    assert colon == DigitsEnd(src, at);
  }

  /** Anything else is refused. */
  lemma StringRefusedIff(src: string, at: nat)
    requires at < |src| && IsDigit(src[at])
    ensures Item(src, at).Ok? || Item(src, at) == Err(BadString)
    ensures Item(src, at).Ok? <==> exists colon: nat :: EndsPrefix(src, at, colon)
  {
    if colon: nat :| EndsPrefix(src, at, colon) {
      DigitsUpTo(src, at, colon);
    }
    var delim := DigitsEnd(src, at);
    if delim < |src| && src[delim] == ':' {
      assert EndsPrefix(src, at, delim);
    }
  }

  predicate EndsPrefix(src: string, at: nat, colon: nat) {
    at < colon < |src| && src[colon] == ':' && IsDigits(src[at..colon])
  }

  lemma DigitsUpTo(src: string, at: nat, colon: nat)
    requires EndsPrefix(src, at, colon)
    ensures DigitsEnd(src, at) == colon
  {
    forall k | at <= k < colon ensures IsDigit(src[k]) {
      assert src[at..colon][k - at] == src[k];
    }
    DigitsEndAt(src, at, colon);
  }

  // ----- anything else

  lemma OtherRefused(src: string, at: nat)
    requires at < |src| && !IsDigit(src[at]) && src[at] !in "ild"
    ensures Item(src, at) == Err(BadData)
  {
  }

  // ----- several items, items cut short, and errors

  /** Any number of encodings, one after the other, are read as a document. */
  lemma {:induction false} DocumentReadsAll(src: string, at: nat, vs: seq<Value>)
    requires Holds(src, at, EncodeItems(vs)) && at + |EncodeItems(vs)| == |src| <= LONG_MAX
    ensures Document(src, at) == Ok(FlattenItems(vs, at), |src|)
    decreases vs
  {
    if vs != [] {
      var mid := at + |Encode(vs[0])|;
      HoldsSplit(src, at, Encode(vs[0]), EncodeItems(vs[1..]));
      ItemStarts(src, at, vs[0]);
      ItemReads(src, at, vs[0], mid);
      ItemsUnfold(vs, at, mid);
      DocumentReadsAll(src, mid, vs[1..]);
    }
  }

  lemma TruncatedListReads(src: string, items: seq<Value>, inner: seq<Token>, end: nat)
    requires src != "" && src[0] == 'l' && Holds(src, 1, EncodeItems(items)) && |src| <= LONG_MAX
    requires end == |src| == 1 + |EncodeItems(items)| && inner == FlattenItems(items, 1)
    ensures Item(src, 0) == Ok(Bracketed(true, 0, inner, end), end + 1)
  {
    ItemsRead(src, 1, items, end);
    ListItem(src, 0, inner, end);
  }

  /** A list whose closing bracket is missing is read as if it were there, one past the end. */
  lemma TruncatedListAccepted(src: string, items: seq<Value>)
    requires src == "l" + EncodeItems(items) && |src| <= LONG_MAX
    ensures Document(src, 0) == Ok(Flatten(ListValue(items), 0), |src| + 1)
  {
    TruncatedListReads(src, items, FlattenItems(items, 1), |src|);
    ListUnfolds(items, 0, FlattenItems(items, 1), |src|);
    OneItem(src, Flatten(ListValue(items), 0), |src| + 1);
  }

  lemma TruncatedDictReads(src: string, entries: seq<Entry>, inner: seq<Token>, end: nat)
    requires src != "" && src[0] == 'd' && Holds(src, 1, EncodeEntries(entries)) && |src| <= LONG_MAX
    requires end == |src| == 1 + |EncodeEntries(entries)| && inner == FlattenEntries(entries, 1)
    ensures Item(src, 0) == Ok(Bracketed(false, 0, inner, end), end + 1)
  {
    EntriesRead(src, 1, entries, end);
    DictItem(src, 0, inner, end);
  }

  /** So is a dictionary. */
  lemma TruncatedDictAccepted(src: string, entries: seq<Entry>)
    requires src == "d" + EncodeEntries(entries) && |src| <= LONG_MAX
    ensures Document(src, 0) == Ok(Flatten(DictValue(entries), 0), |src| + 1)
  {
    TruncatedDictReads(src, entries, FlattenEntries(entries, 1), |src|);
    DictUnfolds(entries, 0, FlattenEntries(entries, 1), |src|);
    OneItem(src, Flatten(DictValue(entries), 0), |src| + 1);
  }

  lemma OneItem(src: string, tokens: seq<Token>, next: nat)
    requires src != "" && Item(src, 0) == Ok(tokens, next) && next >= |src|
    ensures Document(src, 0) == Ok(tokens, next)
  {
    assert Document(src, next) == Ok([], next);
    assert tokens + [] == tokens;
  }

  /** A dictionary takes any items, whether or not they pair up as keys and values. */
  lemma DictTakesAnyItems(src: string, at: nat, items: seq<Value>, end: nat)
    requires at < |src| <= LONG_MAX && src[at] == 'd' && Holds(src, at + 1, EncodeItems(items))
    requires end == at + 1 + |EncodeItems(items)| && (end == |src| || src[end] == 'e')
    ensures Item(src, at) == Ok(Bracketed(false, at, FlattenItems(items, at + 1), end), end + 1)
  {
    ItemsRead(src, at + 1, items, end);
    DictItem(src, at, FlattenItems(items, at + 1), end);
  }

  /** A bad item spoils the items before it... */
  lemma {:induction false} BadItemSpoilsItems(src: string, at: nat, vs: seq<Value>, mid: nat, e: Error)
    requires Holds(src, at, EncodeItems(vs)) && mid == at + |EncodeItems(vs)| && |src| <= LONG_MAX
    requires mid < |src| && src[mid] != 'e' && Item(src, mid) == Err(e)
    ensures Items(src, at) == Err(e)
    decreases vs
  {
    if vs != [] {
      var next := at + |Encode(vs[0])|;
      HoldsSplit(src, at, Encode(vs[0]), EncodeItems(vs[1..]));
      ItemStarts(src, at, vs[0]);
      ItemReads(src, at, vs[0], next);
      BadItemSpoilsItems(src, next, vs[1..], mid, e);
    }
  }

  /** ... the list or dictionary around it... */
  lemma BadItemSpoilsStruct(src: string, at: nat, vs: seq<Value>, mid: nat, e: Error)
    requires at < |src| <= LONG_MAX && (src[at] == 'l' || src[at] == 'd')
    requires Holds(src, at + 1, EncodeItems(vs)) && mid == at + 1 + |EncodeItems(vs)|
    requires mid < |src| && src[mid] != 'e' && Item(src, mid) == Err(e)
    ensures Item(src, at) == Err(e)
  {
    BadItemSpoilsItems(src, at + 1, vs, mid, e);
  }

  /** ... and the whole document. */
  lemma {:induction false} BadItemSpoilsDocument(src: string, at: nat, vs: seq<Value>, mid: nat, e: Error)
    requires Holds(src, at, EncodeItems(vs)) && mid == at + |EncodeItems(vs)| && |src| <= LONG_MAX
    requires mid < |src| && Item(src, mid) == Err(e)
    ensures Document(src, at) == Err(e)
    decreases vs
  {
    if vs != [] {
      var next := at + |Encode(vs[0])|;
      HoldsSplit(src, at, Encode(vs[0]), EncodeItems(vs[1..]));
      ItemStarts(src, at, vs[0]);
      ItemReads(src, at, vs[0], next);
      BadItemSpoilsDocument(src, next, vs[1..], mid, e);
      DocumentStep(src, at, Flatten(vs[0], at), next);
    }
  }

  lemma DocumentStep(src: string, at: nat, first: seq<Token>, next: nat)
    requires at < |src| && Item(src, at) == Ok(first, next)
    ensures Document(src, at) == Join(first, Document(src, next))
  {
  }
}
