/** Which bytes of a metainfo file are hashed as its `info` value
    (TorrentFile::calculate_info_sha1, up to the call of SHA1). */
module InfoSlices {
  import opened Bencode

  /** The slice, or why there is none. `Undefined` is a read past the token list or the
      conversion of log10(0). */
  datatype InfoSlice = NoInfo | Invalid | Undefined | OutOfRange | Slice(text: string)

  function Clip(n: int, src: string): nat {
    if n < 0 || n > |src| then |src| else n
  }

  /** The text of a token; a bracket has none. */
  function Text(t: Token, src: string): string {
    if t.start <= t.end then src[Clip(t.start, src)..Clip(t.end, src)] else ""
  }

  /** The first token from i on that reads "info". */
  function FindInfo(tokens: seq<Token>, src: string, i: nat): (r: nat)
    requires i <= |tokens|
    ensures i <= r <= |tokens| && (r < |tokens| ==> Text(tokens[r], src) == "info")
    decreases |tokens| - i
  {
    if i < |tokens| && Text(tokens[i], src) != "info" then FindInfo(tokens, src, i + 1) else i
  }

  const MAX_U64: nat := 0xffff_ffff_ffff_ffff

  function Depth(kind: Kind, depth: nat): nat {
    match kind
    case DictStart => depth + 1
    case DictEnd => if depth == 0 then MAX_U64 else depth - 1
    case _ => depth
  }

  /** Reading tokens until the dictionaries opened are closed. */
  function Run(tokens: seq<Token>, i: nat, depth: nat): nat
    decreases |tokens| - i
  {
    if i >= |tokens| || depth == 0 then i else Run(tokens, i + 1, Depth(tokens[i].kind, depth))
  }

  function NumDigits(n: nat): nat {
    if n < 10 then 1 else 1 + NumDigits(n / 10)
  }

  /** std::string::substr with an unsigned length. */
  function Substr(src: string, start: nat, length: int): InfoSlice {
    if start > |src| then OutOfRange
    else if length < 0 then Slice(src[start..])
    else Slice(src[start..Clip(start + length, src)])
  }

  /** Up to the next token, less what comes before its text. */
  function SliceBefore(next: Token, src: string, start: nat): InfoSlice {
    match next.kind
    case Int => Substr(src, start, next.start - start - 1)
    case Str =>
      if next.end <= next.start then Undefined
      else Substr(src, start, next.start - start - (NumDigits(next.end - next.start) + 1))
    case _ => Substr(src, start, next.start - start)
  }

  function InfoSliceSpec(tokens: seq<Token>, src: string): InfoSlice {
    var i := FindInfo(tokens, src, 0);
    if i == |tokens| then NoInfo
    else if i + 1 == |tokens| then Undefined
    else
      var j := Run(tokens, i + 2, Depth(tokens[i + 1].kind, 0));
      if j >= |tokens| then Invalid else SliceBefore(tokens[j], src, tokens[i + 1].start)
  }

  method CalculateInfoSlice(tokens: seq<Token>, src: string) returns (r: InfoSlice)
    ensures r == InfoSliceSpec(tokens, src)
  {
    var i := 0;
    while i < |tokens| && Text(tokens[i], src) != "info"
      invariant i <= |tokens| && FindInfo(tokens, src, 0) == FindInfo(tokens, src, i)
    {
      i := i + 1;
    }
    if i == |tokens| {
      return NoInfo;
    }
    i := i + 1;
    if i == |tokens| {
      return Undefined;
    }
    var start := tokens[i].start;
    var depth := Depth(tokens[i].kind, 0);
    ghost var end := Run(tokens, i + 1, depth);
    i := i + 1;
    while i < |tokens| && depth != 0
      invariant i <= |tokens| && end == Run(tokens, i, depth)
    {
      depth := Depth(tokens[i].kind, depth);
      i := i + 1;
    }
    if i == |tokens| {
      return Invalid;
    }
    r := SliceBefore(tokens[i], src, start);
  }

  // ----- where a bracketed item lies in a token list

  /** The token is the first of what stands at q: an item, or a closing bracket. */
  ghost predicate Begins(src: string, t: Token, q: nat) {
    match t.kind
    case Int => t.start == q + 1
    case Str => q < |src| && IsDigit(src[q]) && String(src, q).Ok? && t == String(src, q).tokens[0]
    case _ => t.start == q
  }

  lemma ItemBegins(src: string, at: nat)
    requires at < |src| && Item(src, at).Ok?
    ensures Begins(src, Item(src, at).tokens[0], at)
  {
  }

  lemma ItemsBegin(src: string, at: nat)
    requires Items(src, at).Ok? && Items(src, at).tokens != []
    ensures Begins(src, Items(src, at).tokens[0], at)
  {
    ItemBegins(src, at);
  }

  /** Token k opens an item of the source, whose tokens stand from k on; what follows them
      stands where the item ends. */
  ghost predicate Located(src: string, ts: seq<Token>, k: nat, end: nat)
    requires k < |ts|
  {
    var p := ts[k].start;
    p < |src| && Item(src, p).Ok? &&
    var sub, q := Item(src, p).tokens, Item(src, p).next;
    && k + |sub| <= |ts| && (forall m :: 0 <= m < |sub| ==> ts[k + m] == sub[m])
    && (if k + |sub| < |ts| then Begins(src, ts[k + |sub|], q) else q == end)
  }

  /** An item located in a part of a token list, the part from `from` on, is located in it. */
  lemma LocatedInside(src: string, ts: seq<Token>, inner: seq<Token>, from: nat, k: nat, at: nat, mid: nat, end: nat)
    requires k < |inner| && Located(src, inner, k, mid) && at == from + k
    requires from + |inner| <= |ts| && ts[from..from + |inner|] == inner
    requires if from + |inner| < |ts| then Begins(src, ts[from + |inner|], mid) else mid == end
    ensures Located(src, ts, at, end)
  {
    assert forall m :: 0 <= m < |inner| ==> inner[m] == ts[from..from + |inner|][m] == ts[from + m];
    var sub := Item(src, inner[k].start).tokens;
    forall m | 0 <= m < |sub| ensures ts[at + m] == sub[m] {
      assert inner[k + m] == sub[m];
    }
  }

  predicate Opens(t: Token) { t.kind == ListStart || t.kind == DictStart }

  predicate IsStruct(src: string, at: nat) {
    at < |src| && (src[at] == 'l' || src[at] == 'd')
  }

  function Opening(src: string, at: nat): seq<Token>
    requires IsStruct(src, at)
  {
    [Token(if src[at] == 'l' then ListStart else DictStart, at, 0)]
  }

  function Closing(src: string, at: nat, end: nat): seq<Token>
    requires IsStruct(src, at)
  {
    [Token(if src[at] == 'l' then ListEnd else DictEnd, end, 0)]
  }

  lemma StructParts(src: string, at: nat)
    requires IsStruct(src, at) && Item(src, at).Ok?
    ensures Items(src, at + 1).Ok?
    ensures Item(src, at).tokens
            == Opening(src, at) + Items(src, at + 1).tokens + Closing(src, at, Items(src, at + 1).next)
  {
  }

  lemma ItemsParts(src: string, at: nat)
    requires Items(src, at).Ok? && Items(src, at).tokens != []
    ensures at < |src| && Item(src, at).Ok? && Items(src, Item(src, at).next).Ok?
    ensures Items(src, at) == Join(Item(src, at).tokens, Items(src, Item(src, at).next))
  {
  }

  /** Only a list or a dictionary has an opening bracket beyond its first token, and its
      last token is not one. */
  lemma OpensInside(src: string, at: nat, k: nat)
    requires at < |src| && Item(src, at).Ok? && 0 < k < |Item(src, at).tokens| && Opens(Item(src, at).tokens[k])
    ensures IsStruct(src, at) && Items(src, at + 1).Ok?
    ensures k - 1 < |Items(src, at + 1).tokens| && Opens(Items(src, at + 1).tokens[k - 1])
  {
    if IsStruct(src, at) {
      StructParts(src, at);
    }
  }

  lemma LocatedInStruct(src: string, at: nat, k: nat)
    requires IsStruct(src, at) && Item(src, at).Ok? && Items(src, at + 1).Ok?
    requires k < |Items(src, at + 1).tokens| && Located(src, Items(src, at + 1).tokens, k, Items(src, at + 1).next)
    ensures k + 1 < |Item(src, at).tokens| && Located(src, Item(src, at).tokens, k + 1, Item(src, at).next)
  {
    var inner := Items(src, at + 1);
    StructParts(src, at);
    LocatedBetween(src, Item(src, at).tokens, Opening(src, at), inner.tokens, Closing(src, at, inner.next), k,
                   inner.next, Item(src, at).next);
  }

  lemma LocatedBetween(src: string, ts: seq<Token>, opening: seq<Token>, inner: seq<Token>, closing: seq<Token>,
                       k: nat, mid: nat, end: nat)
    requires |opening| == |closing| == 1 && ts == opening + inner + closing
    requires k < |inner| && Located(src, inner, k, mid) && Begins(src, closing[0], mid)
    ensures k + 1 < |ts| && Located(src, ts, k + 1, end)
  {
    assert ts[1..1 + |inner|] == inner;
    LocatedInside(src, ts, inner, 1, k, k + 1, mid, end);
  }

  lemma LocatedInFirst(src: string, first: seq<Token>, rest: seq<Token>, ts: seq<Token>, k: nat, mid: nat, end: nat)
    requires ts == first + rest && k < |first| && Located(src, first, k, mid)
    requires if rest != [] then Begins(src, rest[0], mid) else mid == end
    ensures Located(src, ts, k, end)
  {
    assert ts[0..|first|] == first;
    LocatedInside(src, ts, first, 0, k, k, mid, end);
  }

  lemma LocatedInRest(src: string, first: seq<Token>, rest: seq<Token>, ts: seq<Token>, k: nat, end: nat)
    requires ts == first + rest && |first| <= k < |ts| && Located(src, rest, k - |first|, end)
    ensures Located(src, ts, k, end)
  {
    assert ts[|first|..|first| + |rest|] == rest;
    LocatedInside(src, ts, rest, |first|, k - |first|, k, end, end);
  }

  lemma ItemsEnd(src: string, at: nat)
    requires Items(src, at).Ok? && Items(src, at).tokens == []
    ensures Items(src, at).next == at
  {
  }

  lemma {:induction false} LocateInItem(src: string, at: nat, k: nat)
    requires at < |src| && Item(src, at).Ok? && k < |Item(src, at).tokens| && Opens(Item(src, at).tokens[k])
    ensures Located(src, Item(src, at).tokens, k, Item(src, at).next)
    decreases |src| - at, 0
  {
    if k == 0 {
      ItemBegins(src, at);
    } else {
      OpensInside(src, at, k);
      LocateInItems(src, at + 1, k - 1);
      LocatedInStruct(src, at, k - 1);
    }
  }

  lemma {:induction false} LocateInItems(src: string, at: nat, k: nat)
    requires Items(src, at).Ok? && k < |Items(src, at).tokens| && Opens(Items(src, at).tokens[k])
    ensures Located(src, Items(src, at).tokens, k, Items(src, at).next)
    decreases |src| - at, 1
  {
    ItemsParts(src, at);
    var first := Item(src, at).tokens;
    var mid := Item(src, at).next;
    var rest := Items(src, mid).tokens;
    var end := Items(src, mid).next;
    var ts := Items(src, at).tokens;
    assert ts == first + rest && Items(src, at).next == end;
    if k < |first| {
      LocateInItem(src, at, k);
      RestBegins(src, mid);
      LocatedInFirst(src, first, rest, ts, k, mid, end);
    } else {
      LocateInItems(src, mid, k - |first|);
      LocatedInRest(src, first, rest, ts, k, end);
    }
  }

  lemma RestBegins(src: string, at: nat)
    requires Items(src, at).Ok?
    ensures if Items(src, at).tokens != [] then Begins(src, Items(src, at).tokens[0], at) else at == Items(src, at).next
  {
    if Items(src, at).tokens != [] { ItemsBegin(src, at); } else { ItemsEnd(src, at); }
  }

  /** A document that parses has no stray 'e', so it is one run of items. */
  lemma {:induction false} DocumentIsItems(src: string, at: nat)
    requires Document(src, at).Ok?
    ensures Items(src, at) == Document(src, at)
    decreases |src| - at
  {
    if at < |src| {
      DocumentIsItems(src, Item(src, at).next);
    }
  }

  // ----- counting dictionaries over a balanced item

  /** `sub` stands in `tokens` from k on. */
  ghost predicate StandsAt(tokens: seq<Token>, k: nat, sub: seq<Token>) {
    k + |sub| <= |tokens| && forall m :: 0 <= m < |sub| ==> tokens[k + m] == sub[m]
  }

  lemma StandsSplit(tokens: seq<Token>, k: nat, a: seq<Token>, b: seq<Token>)
    requires StandsAt(tokens, k, a + b)
    ensures StandsAt(tokens, k, a) && StandsAt(tokens, k + |a|, b)
  {
    forall m | 0 <= m < |a| ensures tokens[k + m] == a[m] { assert (a + b)[m] == a[m]; }
    forall m | 0 <= m < |b| ensures tokens[k + |a| + m] == b[m] { assert (a + b)[|a| + m] == b[m]; }
  }

  /** Inside some dictionary, a whole item never closes it. */
  lemma {:induction false} RunOverItem(src: string, at: nat, tokens: seq<Token>, k: nat, depth: nat)
    requires at < |src| && Item(src, at).Ok? && depth > 0 && StandsAt(tokens, k, Item(src, at).tokens)
    ensures Run(tokens, k, depth) == Run(tokens, k + |Item(src, at).tokens|, depth)
    decreases |src| - at, 0
  {
    assert tokens[k + 0] == Item(src, at).tokens[0];
    if IsStruct(src, at) {
      RunInside(src, at, tokens, k);
      var closing := k + 1 + |Items(src, at + 1).tokens|;
      var inside := if src[at] == 'd' then depth + 1 else depth;
      RunStep(tokens, k, depth, k + 1, inside);
      RunOverItems(src, at + 1, tokens, k + 1, inside);
      RunStep(tokens, closing, inside, closing + 1, depth);
    }
  }

  lemma RunStep(tokens: seq<Token>, i: nat, depth: nat, next: nat, inside: nat)
    requires i < |tokens| && depth > 0 && next == i + 1 && inside == Depth(tokens[i].kind, depth)
    ensures Run(tokens, i, depth) == Run(tokens, next, inside)
  {
  }

  /** The brackets and the inside of a bracketed item. */
  lemma RunInside(src: string, at: nat, tokens: seq<Token>, k: nat)
    requires IsStruct(src, at) && Item(src, at).Ok? && StandsAt(tokens, k, Item(src, at).tokens)
    ensures var inner := Items(src, at + 1).tokens;
            && |Item(src, at).tokens| == |inner| + 2 && StandsAt(tokens, k + 1, inner)
            && tokens[k].kind == (if src[at] == 'l' then ListStart else DictStart)
            && tokens[k + 1 + |inner|].kind == (if src[at] == 'l' then ListEnd else DictEnd)
  {
    var inner := Items(src, at + 1);
    StructParts(src, at);
    StandsSplit(tokens, k, Opening(src, at) + inner.tokens, Closing(src, at, inner.next));
    StandsSplit(tokens, k, Opening(src, at), inner.tokens);
    assert tokens[k + 0] == Opening(src, at)[0]
      && tokens[k + 1 + |inner.tokens| + 0] == Closing(src, at, inner.next)[0];
  }

  lemma {:induction false} RunOverItems(src: string, at: nat, tokens: seq<Token>, k: nat, depth: nat)
    requires Items(src, at).Ok? && depth > 0 && StandsAt(tokens, k, Items(src, at).tokens)
    ensures Run(tokens, k, depth) == Run(tokens, k + |Items(src, at).tokens|, depth)
    decreases |src| - at, 1
  {
    if at < |src| && src[at] != 'e' {
      var first := Item(src, at);
      var rest := Items(src, first.next);
      StandsSplit(tokens, k, first.tokens, rest.tokens);
      RunOverItem(src, at, tokens, k, depth);
      RunOverItems(src, first.next, tokens, k + |first.tokens|, depth);
    }
  }

  /** From the bracket that opens a dictionary, the scan stops right after its last token. */
  lemma RunOverDict(src: string, at: nat, tokens: seq<Token>, k: nat)
    requires at < |src| && src[at] == 'd' && Item(src, at).Ok? && StandsAt(tokens, k, Item(src, at).tokens)
    ensures Run(tokens, k + 1, Depth(tokens[k].kind, 0)) == k + |Item(src, at).tokens|
  {
    RunInside(src, at, tokens, k);
    var n := |Items(src, at + 1).tokens|;
    RunOverItems(src, at + 1, tokens, k + 1, 1);
    assert Run(tokens, k + 1 + n, 1) == Run(tokens, k + n + 2, 0);
  }
}
