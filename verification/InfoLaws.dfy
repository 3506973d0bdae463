/** When the hashed slice is exactly the `info` value. */
module InfoLaws {
  import opened Bencode
  import opened InfoSlices

  // ----- decimal lengths

  lemma {:induction false} NumDigitsMonotone(a: nat, b: nat)
    requires a <= b
    ensures NumDigits(a) <= NumDigits(b)
    decreases b
  {
    if b >= 10 && a >= 10 { NumDigitsMonotone(a / 10, b / 10); }
  }

  /** A digit string is as long as its value prints, unless it starts with 0. */
  lemma {:induction false} DigitsOfDecimal(s: string)
    requires s != [] && forall k :: 0 <= k < |s| ==> IsDigit(s[k])
    ensures s[0] != '0' ==> Decimal(s) > 0 && NumDigits(Decimal(s)) == |s|
    ensures s[0] == '0' && Decimal(s) > 0 ==> NumDigits(Decimal(s)) < |s|
  {
    var front := s[..|s| - 1];
    var last := DigitValue(s[|s| - 1]);
    if front == [] {
      assert Decimal(s) == last;
    } else {
      DigitsOfDecimal(front);
      assert Decimal(s) / 10 == Decimal(front);
    }
  }

  lemma ThreeMoreDigits(n: nat)
    requires n >= 1000
    ensures NumDigits(n) == 3 + NumDigits(n / 1000)
  {
    assert n / 10 / 10 == n / 100 && n / 100 / 10 == n / 1000;
    assert NumDigits(n / 10) == 1 + NumDigits(n / 100);
  }

  lemma MaxLongDigits()
    ensures NumDigits(LONG_MAX) == 19
  {
    ThreeMoreDigits(9223372036854775807);
    ThreeMoreDigits(9223372036854775);
    ThreeMoreDigits(9223372036854);
    ThreeMoreDigits(9223372036);
    ThreeMoreDigits(9223372);
    ThreeMoreDigits(9223);
  }

  /** A length prefix that strtol reads whole and that log10 measures right: it does not start
      with 0 and has at most 19 digits. */
  predicate PlainPrefix(src: string, q: nat)
    requires q < |src|
  {
    src[q] != '0' && DigitsEnd(src, q) - q <= 19
  }

  /** The digit count of a string's length against its written prefix. */
  lemma PrefixMeasured(src: string, q: nat)
    requires q < |src| && IsDigit(src[q])
    ensures StrtolValue(src, q) > 0 ==> NumDigits(StrtolValue(src, q)) <= DigitsEnd(src, q) - q
    ensures StrtolValue(src, q) > 0 && NumDigits(StrtolValue(src, q)) == DigitsEnd(src, q) - q <==> PlainPrefix(src, q)
  {
    var prefix := src[q..DigitsEnd(src, q)];
    assert prefix[0] == src[q];
    DigitsOfDecimal(prefix);
    MaxLongDigits();
    if Decimal(prefix) < LONG_MAX {
      NumDigitsMonotone(Decimal(prefix), LONG_MAX);
    } else {
      NumDigitsMonotone(LONG_MAX, Decimal(prefix));
    }
  }

  // ----- any source that parses

  /** The bytes from p up to q, or to the end of a source cut short. */
  function Span(src: string, p: nat, q: nat): string
    requires p <= |src| && p <= q
  {
    src[p..if q <= |src| then q else |src|]
  }

  /** The slice that ends before the token of what stands at q is exactly [p, q), except
      before a string whose prefix is not plain. */
  lemma SliceBeforeExact(src: string, t: Token, p: nat, q: nat)
    requires p < |src| && p <= q && Begins(src, t, q)
    ensures SliceBefore(t, src, p) == Slice(Span(src, p, q)) <==> (t.kind.Str? ==> PlainPrefix(src, q))
  {
    if t.kind.Str? {
      PrefixMeasured(src, q);
      var length := StrtolValue(src, q);
      var delim := DigitsEnd(src, q);
      assert t == Token(Str, delim + 1, delim + 1 + length);
      if length > 0 {
        assert t.start - p - (NumDigits(length) + 1) == q - p + (delim - q - NumDigits(length));
      }
    }
  }

  /** And before such a string: there is none before an empty one, and otherwise the slice runs
      on into the prefix, by as many bytes as it is longer than its number. */
  lemma SliceBeforeString(src: string, t: Token, p: nat, q: nat)
    requires p < |src| && p <= q && t.kind.Str? && Begins(src, t, q)
    ensures StrtolValue(src, q) == 0 ==> SliceBefore(t, src, p) == Undefined
    ensures StrtolValue(src, q) > 0 ==>
              && NumDigits(StrtolValue(src, q)) <= DigitsEnd(src, q) - q
              && SliceBefore(t, src, p) == Slice(Span(src, p, DigitsEnd(src, q) - NumDigits(StrtolValue(src, q))))
  {
    PrefixMeasured(src, q);
    var length := StrtolValue(src, q);
    var delim := DigitsEnd(src, q);
    assert t == Token(Str, delim + 1, delim + 1 + length);
    if length > 0 {
      assert t.start - p - (NumDigits(length) + 1) == delim - NumDigits(length) - p;
    }
  }

  /** The dictionary that token k opens, and the token that ends the scan: the first after
      the dictionary's own. */
  lemma ScanEndsAfterDict(src: string, tokens: seq<Token>, k: nat, p: nat) returns (j: nat, q: nat)
    requires Document(src, 0).Ok? && tokens == Document(src, 0).tokens
    requires k < |tokens| && tokens[k].kind == DictStart && p == tokens[k].start
    ensures p < |src| && src[p] == 'd' && Item(src, p).Ok?
    ensures j == k + |Item(src, p).tokens| && q == Item(src, p).next
    ensures j <= |tokens| && Run(tokens, k + 1, Depth(tokens[k].kind, 0)) == j
    ensures j < |tokens| ==> Begins(src, tokens[j], q)
  {
    DocumentIsItems(src, 0);
    LocateInItems(src, 0, k);
    assert tokens[k + 0] == Item(src, p).tokens[0];
    DictTokenIsDict(src, p);
    RunOverDict(src, p, tokens, k);
    j, q := k + |Item(src, p).tokens|, Item(src, p).next;
  }

  /** Token j follows a dictionary that spans [p, q). If there is none, no slice is taken;
      otherwise the slice is exactly the dictionary's bytes if and only if token j is not a
      string, or is one whose length prefix does not start with 0 and has at most 19 digits. */
  ghost predicate ExactUpTo(src: string, tokens: seq<Token>, j: nat, p: nat, q: nat)
    requires p < |src| && p < q
  {
    && (j >= |tokens| ==> InfoSliceSpec(tokens, src) == Invalid)
    && (j < |tokens| && tokens[j].kind.Str? ==> q < |src|)
    && (j < |tokens| ==>
          (InfoSliceSpec(tokens, src) == Slice(Span(src, p, q)) <==> (tokens[j].kind.Str? ==> PlainPrefix(src, q))))
  }

  /** The slice, once it is known where the scan ends. */
  lemma SliceOfScan(src: string, tokens: seq<Token>, k: nat, j: nat, p: nat, q: nat)
    requires k == FindInfo(tokens, src, 0) + 1 < |tokens|
             && j == Run(tokens, k + 1, Depth(tokens[k].kind, 0)) <= |tokens|
    requires p == tokens[k].start && p < |src| && p < q && (j < |tokens| ==> Begins(src, tokens[j], q))
    ensures ExactUpTo(src, tokens, j, p, q)
  {
    SpecAt(tokens, src, k, j);
    if j < |tokens| {
      SliceBeforeExact(src, tokens[j], p, q);
    }
  }

  lemma SpecAt(tokens: seq<Token>, src: string, k: nat, j: nat)
    requires k == FindInfo(tokens, src, 0) + 1 < |tokens| && j == Run(tokens, k + 1, Depth(tokens[k].kind, 0))
    ensures InfoSliceSpec(tokens, src) ==
            if j >= |tokens| then Invalid else SliceBefore(tokens[j], src, tokens[k].start)
  {
  }

  /** On any source that parses, well-formed or not, with a dictionary after the first token
      that reads "info", the slice is exact in this sense. */
  lemma InfoSliceExactIff(src: string, tokens: seq<Token>, k: nat, p: nat) returns (j: nat, q: nat)
    requires Document(src, 0).Ok? && tokens == Document(src, 0).tokens
    requires k == FindInfo(tokens, src, 0) + 1 < |tokens| && tokens[k].kind == DictStart && p == tokens[k].start
    ensures p < |src| && src[p] == 'd' && Item(src, p).Ok?
    ensures j == k + |Item(src, p).tokens| <= |tokens| && q == Item(src, p).next
    ensures ExactUpTo(src, tokens, j, p, q)
  {
    j, q := ScanEndsAfterDict(src, tokens, k, p);
    SliceOfScan(src, tokens, k, j, p, q);
  }

  lemma DictTokenIsDict(src: string, p: nat)
    requires p < |src| && Item(src, p).Ok? && Item(src, p).tokens[0].kind == DictStart
    ensures src[p] == 'd'
  {
  }

  // ----- where there is no such slice

  lemma {:induction false} FindInfoFirst(tokens: seq<Token>, src: string, i: nat, m: nat)
    requires i <= m < |tokens| && m < FindInfo(tokens, src, i)
    ensures Text(tokens[m], src) != "info"
    decreases m - i
  {
    FindInfoStep(tokens, src, i);
    if i < m { FindInfoFirst(tokens, src, i + 1, m); }
  }

  lemma FindInfoStep(tokens: seq<Token>, src: string, i: nat)
    requires i < |tokens| && i < FindInfo(tokens, src, i)
    ensures Text(tokens[i], src) != "info" && FindInfo(tokens, src, i) == FindInfo(tokens, src, i + 1)
  {
  }

  lemma FindInfoIs(tokens: seq<Token>, src: string, k: nat)
    requires k < |tokens| && Text(tokens[k], src) == "info"
    requires forall m :: 0 <= m < k ==> Text(tokens[m], src) != "info"
    ensures FindInfo(tokens, src, 0) == k
  {
    var r := FindInfo(tokens, src, 0);
    if k < r { FindInfoFirst(tokens, src, 0, k); }
  }

  /** Nothing is hashed for want of a key exactly when no token reads "info". */
  lemma NoInfoIff(tokens: seq<Token>, src: string)
    ensures FindInfo(tokens, src, 0) == |tokens| <==> forall m :: 0 <= m < |tokens| ==> Text(tokens[m], src) != "info"
    ensures (forall m :: 0 <= m < |tokens| ==> Text(tokens[m], src) != "info") ==> InfoSliceSpec(tokens, src) == NoInfo
  {
    var r := FindInfo(tokens, src, 0);
    if r == |tokens| {
      forall m | 0 <= m < |tokens| ensures Text(tokens[m], src) != "info" {
        FindInfoFirst(tokens, src, 0, m);
      }
    }
  }

  /** If the first one is the last token, the source reads past the list. */
  lemma LastInfoUndefined(tokens: seq<Token>, src: string, k: nat)
    requires k + 1 == |tokens| && Text(tokens[k], src) == "info"
    requires forall m :: 0 <= m < k ==> Text(tokens[m], src) != "info"
    ensures InfoSliceSpec(tokens, src) == Undefined
  {
    FindInfoIs(tokens, src, k);
  }

  lemma {:induction false} DeepRunsOut(tokens: seq<Token>, i: nat, depth: nat)
    requires i <= |tokens| && depth > |tokens| - i
    ensures Run(tokens, i, depth) == |tokens|
    decreases |tokens| - i
  {
    if i < |tokens| {
      DeepRunsOut(tokens, i + 1, Depth(tokens[i].kind, depth));
    }
  }

  /** The source throws exactly when the slice would start behind its end. */
  lemma OutOfRangeIff(next: Token, src: string, start: nat)
    ensures SliceBefore(next, src, start) == OutOfRange <==>
            start > |src| && !(next.kind.Str? && next.end <= next.start)
  {
  }

  /** If it closes its dictionary, as a value does, the depth wraps around, the scan runs out of
      tokens and no slice is taken. */
  lemma InfoBeforeBracketInvalid(tokens: seq<Token>, src: string, k: nat)
    requires k + 1 < |tokens| <= MAX_U64 && Text(tokens[k], src) == "info" && tokens[k + 1].kind == DictEnd
    requires forall m :: 0 <= m < k ==> Text(tokens[m], src) != "info"
    ensures InfoSliceSpec(tokens, src) == Invalid
  {
    FindInfoIs(tokens, src, k);
    DeepRunsOut(tokens, k + 2, MAX_U64);
  }
}
