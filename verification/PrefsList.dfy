/** Preferences as an ordered multimap, and what saving and loading do to it. */
module PrefsList {
  import opened Options
  import opened MacMemory
  import opened PrefsText

  datatype Kind = StringKind | BoolKind | IntKind

  datatype Value = Str(s: cstring) | Bool(b: bool) | Int(i: int32) {
    function Kind(): Kind {
      match this
      case Str(_) => StringKind
      case Bool(_) => BoolKind
      case Int(_) => IntKind
    }
  }

  datatype Node = Node(name: cstring, value: Value)

  predicate Matches(n: Node, name: cstring, k: Kind) {
    n.name == name && n.value.Kind() == k
  }

  // ------------------------------------------------------------- lookups and changes

  /** The values stored under a name and type, in order. */
  function Values(l: seq<Node>, name: cstring, k: Kind): (r: seq<Value>)
    ensures forall i :: 0 <= i < |r| ==> r[i].Kind() == k
  {
    if l == [] then [] else
    (if Matches(l[0], name, k) then [l[0].value] else []) + Values(l[1..], name, k)
  }

  /** Position of the index-th node with a name and type, the length if there is none. */
  function Position(l: seq<Node>, name: cstring, k: Kind, index: nat): (p: nat)
    ensures p <= |l| && (p < |l| ==> Matches(l[p], name, k))
  {
    if l == [] then 0
    else if Matches(l[0], name, k) then if index == 0 then 0 else 1 + Position(l[1..], name, k, index - 1)
    else 1 + Position(l[1..], name, k, index)
  }

  function FindString(l: seq<Node>, name: cstring, index: nat): Option<cstring> {
    var vs := Values(l, name, StringKind);
    if index < |vs| then Some(vs[index].s) else None
  }

  function FindBool(l: seq<Node>, name: cstring): bool {
    var vs := Values(l, name, BoolKind);
    vs != [] && vs[0].b
  }

  function FindInt(l: seq<Node>, name: cstring): int32 {
    var vs := Values(l, name, IntKind);
    if vs == [] then 0 else vs[0].i
  }

  /** Overwrite the index-th value of its kind, or append. */
  function Replace(l: seq<Node>, name: cstring, v: Value, index: nat): seq<Node> {
    var p := Position(l, name, v.Kind(), index);
    if p < |l| then l[p := Node(name, v)] else l + [Node(name, v)]
  }

  /** The node a position names holds the value of that index. */
  lemma {:induction false} PositionHoldsValue(l: seq<Node>, name: cstring, k: Kind, index: nat)
    ensures var p, vs := Position(l, name, k, index), Values(l, name, k);
      (p < |l| <==> index < |vs|) && (p < |l| ==> l[p].value == vs[index])
  {
    if l != [] {
      var rest := Values(l[1..], name, k);
      if !Matches(l[0], name, k) {
        PositionHoldsValue(l[1..], name, k, index);
        assert Values(l, name, k) == rest;
      } else {
        assert Values(l, name, k) == [l[0].value] + rest;
        if index > 0 {
          PositionHoldsValue(l[1..], name, k, index - 1);
        }
      }
    }
  }

  lemma {:induction false} ValuesConcat(a: seq<Node>, b: seq<Node>, name: cstring, k: Kind)
    ensures Values(a + b, name, k) == Values(a, name, k) + Values(b, name, k)
  {
    hide Matches;
    if a == [] {
      assert a + b == b;
    } else {
      var first := if Matches(a[0], name, k) then [a[0].value] else [];
      assert (a + b)[1..] == a[1..] + b;
      ValuesConcat(a[1..], b, name, k);
      assert Values(a + b, name, k) == first + (Values(a[1..], name, k) + Values(b, name, k));
    }
  }

  /** Adding appends to the values of its own name and type and leaves all others. */
  lemma AddEffect(l: seq<Node>, n: Node, name: cstring, k: Kind)
    ensures Values(l + [n], name, k) == Values(l, name, k) + if Matches(n, name, k) then [n.value] else []
  {
    ValuesConcat(l, [n], name, k);
    assert [n][1..] == [];
  }

  /** Before the index-th match there are index matches. */
  lemma {:induction false} PositionSplits(l: seq<Node>, name: cstring, k: Kind, index: nat)
    ensures var p := Position(l, name, k, index); p < |l| ==> |Values(l[..p], name, k)| == index
  {
    var p := Position(l, name, k, index);
    if 0 < p < |l| {
      assert l[..p][1..] == l[1..][..p - 1];
      PositionSplits(l[1..], name, k, if Matches(l[0], name, k) then index - 1 else index);
    }
  }

  /** Replacing changes one value of its own name and type, or adds it, and leaves all others. */
  lemma {:induction false} ReplaceEffect(l: seq<Node>, name: cstring, v: Value, index: nat, name': cstring, k: Kind)
    ensures var vs, r := Values(l, name', k), Values(Replace(l, name, v, index), name', k);
      if name' == name && k == v.Kind() then r == if index < |vs| then vs[index := v] else vs + [v]
      else r == vs
  {
    hide Matches, Values, Position;
    var p := Position(l, name, v.Kind(), index);
    PositionHoldsValue(l, name, v.Kind(), index);
    if p == |l| {
      AddEffect(l, Node(name, v), name', k);
      MatchesIs(Node(name, v), name', k);
    } else {
      OverwriteEffect(l, name, v, index, name', k);
    }
  }

  lemma MatchesIs(n: Node, name: cstring, k: Kind)
    ensures Matches(n, name, k) <==> n.name == name && n.value.Kind() == k
  {
  }

  lemma OverwriteEffect(l: seq<Node>, name: cstring, v: Value, index: nat, name': cstring, k: Kind)
    requires Position(l, name, v.Kind(), index) < |l|
    ensures var p, vs := Position(l, name, v.Kind(), index), Values(l, name', k);
      if name' == name && k == v.Kind() then index < |vs| && Values(l[p := Node(name, v)], name', k) == vs[index := v]
      else Values(l[p := Node(name, v)], name', k) == vs
  {
    hide Values, Position, Matches;
    var p := Position(l, name, v.Kind(), index);
    var front, back := l[..p], l[p + 1..];
    assert l == front + ([l[p]] + back) && l[p := Node(name, v)] == front + ([Node(name, v)] + back);
    PositionSplits(l, name, v.Kind(), index);
    MatchesIs(l[p], name, v.Kind());
    ValuesAround(front, l[p], back, name', k);
    ValuesAround(front, Node(name, v), back, name', k);
  }

  lemma ValuesAround(front: seq<Node>, n: Node, back: seq<Node>, name: cstring, k: Kind)
    ensures Values(front + ([n] + back), name, k) ==
      Values(front, name, k) + (if n.name == name && n.value.Kind() == k then [n.value] else []) + Values(back, name, k)
  {
    ValuesConcat(front, [n] + back, name, k);
    ValuesConcat([n], back, name, k);
    assert [n][1..] == [];
  }

  // ------------------------------------------------------------- descriptors

  datatype Desc = Desc(name: cstring, kind: Kind, multiple: bool)

  function FindDesc(ds: seq<Desc>, name: cstring): (r: Option<Desc>)
    ensures r.Some? ==> r.value in ds && r.value.name == name
  {
    if ds == [] then None else if ds[0].name == name then Some(ds[0]) else FindDesc(ds[1..], name)
  }

  predicate GoodDescs(ds: seq<Desc>) {
    && (forall i :: 0 <= i < |ds| ==> GoodName(ds[i].name))
    && (forall i, j :: 0 <= i < j < |ds| ==> ds[i].name != ds[j].name)
  }

  lemma {:induction false} FindDescFinds(ds: seq<Desc>, i: nat)
    requires GoodDescs(ds) && i < |ds|
    ensures FindDesc(ds, ds[i].name) == Some(ds[i])
  {
    if i > 0 {
      assert ds[0].name != ds[i].name;
      FindDescFinds(ds[1..], i - 1);
    }
  }

  // ------------------------------------------------------------- loading

  function ValueOf(k: Kind, text: cstring): (v: Value)
    ensures v.Kind() == k
  {
    match k
    case StringKind => Str(text)
    case BoolKind => Bool(text == "true")
    case IntKind => Int(ToInt32(Atol(text)))
  }

  /** Store the text of a value under a described name. */
  function Apply(l: seq<Node>, d: Desc, text: cstring): seq<Node> {
    var v := ValueOf(d.kind, text);
    if d.kind == StringKind && d.multiple then l + [Node(d.name, v)] else Replace(l, d.name, v, 0)
  }

  /** The list after one line; None when the line overruns. */
  function Step(ds: seq<Desc>, l: seq<Node>, chunk: string): Option<seq<Node>> {
    match ParseChunk(chunk)
    case Overrun => None
    case Nothing => Some(l)
    case Setting(keyword, text) =>
      match FindDesc(ds, keyword)
      case None => Some(l)
      case Some(d) => Some(Apply(l, d, text))
  }

  function Load(ds: seq<Desc>, l: seq<Node>, text: string): Option<seq<Node>>
    decreases |text|
  {
    if text == "" then Some(l) else
    var n := ChunkLength(text);
    match Step(ds, l, text[..n])
    case None => None
    case Some(l') => Load(ds, l', text[n..])
  }

  /** Loading succeeds, whatever is described and stored already, if and only if every line of the
      text is empty as a C string, a comment, or has white space before its last character. */
  lemma {:induction false} LoadSucceedsIff(ds: seq<Desc>, l: seq<Node>, text: string)
    ensures Load(ds, l, text).Some? <==> AllReadable(text)
    decreases |text|
  {
    hide ParseChunk, ChunkLength, Readable, Apply, FindDesc;
    if text != "" {
      var n := ChunkLength(text);
      OverrunsIffNotReadable(text[..n]);
      match Step(ds, l, text[..n])
      case None =>
      case Some(l') => LoadSucceedsIff(ds, l', text[n..]);
    }
  }

  // ------------------------------------------------------------- saving

  function PrintStrings(name: cstring, vs: seq<Value>): string
    requires forall i :: 0 <= i < |vs| ==> vs[i].Str?
  {
    if vs == [] then "" else PrintLine(name, vs[0].s) + PrintStrings(name, vs[1..])
  }

  function PrintItem(l: seq<Node>, d: Desc): string {
    match d.kind
    case StringKind => PrintStrings(d.name, Values(l, d.name, StringKind))
    case BoolKind => PrintLine(d.name, if FindBool(l, d.name) then "true" else "false")
    case IntKind => PrintLine(d.name, Decimal(FindInt(l, d.name)))
  }

  function Save(l: seq<Node>, ds: seq<Desc>): string {
    if ds == [] then "" else PrintItem(l, ds[0]) + Save(l, ds[1..])
  }

  // ------------------------------------------------------------- the round trip

  /** The two lists answer every question about a described item alike. */
  predicate SameAnswer(l: seq<Node>, l': seq<Node>, d: Desc) {
    match d.kind
    case StringKind => Values(l', d.name, StringKind) == Values(l, d.name, StringKind)
    case BoolKind => FindBool(l', d.name) == FindBool(l, d.name)
    case IntKind => FindInt(l', d.name) == FindInt(l, d.name)
  }

  predicate SameAnswers(l: seq<Node>, l': seq<Node>, ds: seq<Desc>) {
    forall d :: d in ds ==> SameAnswer(l, l', d)
  }

  /** For strings, that is the same answer for every index. */
  lemma SameStrings(l: seq<Node>, l': seq<Node>, name: cstring)
    ensures Values(l', name, StringKind) == Values(l, name, StringKind)
      <==> forall index: nat :: FindString(l', name, index) == FindString(l, name, index)
  {
    var a, b := Values(l, name, StringKind), Values(l', name, StringKind);
    if |a| < |b| {
      assert FindString(l', name, |a|) != FindString(l, name, |a|);
    } else if |b| < |a| {
      assert FindString(l', name, |b|) != FindString(l, name, |b|);
    } else if a != b {
      var i :| 0 <= i < |a| && a[i] != b[i];
      assert FindString(l', name, i) != FindString(l, name, i);
    }
  }

  /** The strings of an item can be written: single lines that fit, and no more than one unless
      the item may occur several times. */
  predicate Writable(l: seq<Node>, d: Desc) {
    var vs := Values(l, d.name, StringKind);
    d.kind == StringKind ==>
      && (d.multiple || |vs| <= 1)
      && forall i :: 0 <= i < |vs| ==> Plain(vs[i].s) && |d.name| + |vs[i].s| + 2 <= LINE_MAX
  }

  predicate AllWritable(l: seq<Node>, ds: seq<Desc>) {
    forall d :: d in ds ==> Writable(l, d)
  }

  /** One printed line is loaded as one setting. */
  lemma LoadLine(ds: seq<Desc>, l: seq<Node>, i: nat, value: cstring, rest: string)
    requires GoodDescs(ds) && i < |ds| && Plain(value) && |ds[i].name| + |value| + 2 <= LINE_MAX
    ensures Load(ds, l, PrintLine(ds[i].name, value) + rest) == Load(ds, Apply(l, ds[i], value), rest)
  {
    PrintedLineParses(ds[i].name, value, rest);
    FindDescFinds(ds, i);
  }

  /** Storing a first value, or another one where several may occur, appends it. */
  lemma ApplyEffect(l: seq<Node>, d: Desc, text: cstring, v: Value, name: cstring, k: Kind)
    requires v == ValueOf(d.kind, text)
    requires (d.kind == StringKind && d.multiple) || Values(l, d.name, d.kind) == []
    ensures Values(Apply(l, d, text), name, k) == Values(l, name, k) + if name == d.name && k == d.kind then [v] else []
  {
    hide Values, Replace, Matches;
    MatchesIs(Node(d.name, v), name, k);
    AddEffect(l, Node(d.name, v), name, k);
    ReplaceEffect(l, d.name, v, 0, name, k);
  }

  /** Loading the lines of a string item adds its values. */
  lemma {:induction false} LoadStrings(ds: seq<Desc>, l: seq<Node>, i: nat, vs: seq<Value>,
                                       rest: string) returns (l': seq<Node>)
    requires GoodDescs(ds) && i < |ds| && ds[i].kind == StringKind
    requires forall j :: 0 <= j < |vs| ==> vs[j].Str? && Plain(vs[j].s) && |ds[i].name| + |vs[j].s| + 2 <= LINE_MAX
    requires !ds[i].multiple ==> |vs| + |Values(l, ds[i].name, StringKind)| <= 1
    ensures Load(ds, l, PrintStrings(ds[i].name, vs) + rest) == Load(ds, l', rest)
    ensures Values(l', ds[i].name, StringKind) == Values(l, ds[i].name, StringKind) + vs
    ensures forall name: cstring, k :: !(name == ds[i].name && k == StringKind) ==>
      Values(l', name, k) == Values(l, name, k)
    decreases |vs|
  {
    hide Values, Load, Apply, PrintLine, FindDesc, GoodDescs;
    if vs == [] {
      l' := l;
      assert PrintStrings(ds[i].name, vs) + rest == rest;
    } else {
      var v := vs[0];
      var l1 := Apply(l, ds[i], v.s);
      forall name: cstring, k: Kind
        ensures Values(l1, name, k) == Values(l, name, k) + if name == ds[i].name && k == StringKind then [v] else []
      {
        ApplyEffect(l, ds[i], v.s, v, name, k);
      }
      var more := PrintStrings(ds[i].name, vs[1..]) + rest;
      assert PrintStrings(ds[i].name, vs) + rest == PrintLine(ds[i].name, v.s) + more;
      LoadLine(ds, l, i, v.s, more);
      l' := LoadStrings(ds, l1, i, vs[1..], rest);
    }
  }

  /** Loading what was saved of one item gives its answers back and touches nothing else. */
  lemma LoadItem(ds: seq<Desc>, l0: seq<Node>, l: seq<Node>, i: nat, rest: string) returns (l': seq<Node>)
    requires GoodDescs(ds) && i < |ds| && Writable(l, ds[i]) && Values(l0, ds[i].name, ds[i].kind) == []
    ensures Load(ds, l0, PrintItem(l, ds[i]) + rest) == Load(ds, l', rest)
    ensures SameAnswer(l, l', ds[i])
    ensures forall name: cstring, k :: !(name == ds[i].name && k == ds[i].kind) ==>
      Values(l', name, k) == Values(l0, name, k)
  {
    hide Values, Load, Apply, PrintLine, FindDesc, Atol, Decimal, ToInt32, PrintStrings;
    var d := ds[i];
    DecimalIsPlain(FindInt(l, d.name));
    DecimalReadsBack(FindInt(l, d.name));
    if d.kind == StringKind {
      l' := LoadStrings(ds, l0, i, Values(l, d.name, StringKind), rest);
    } else {
      var text: cstring := if d.kind == BoolKind then if FindBool(l, d.name) then "true" else "false"
        else Decimal(FindInt(l, d.name));
      var v := if d.kind == BoolKind then Bool(FindBool(l, d.name)) else Int(FindInt(l, d.name));
      LoadLine(ds, l0, i, text, rest);
      l' := Apply(l0, d, text);
      forall name: cstring, k: Kind
        ensures Values(l', name, k) == Values(l0, name, k) + if name == d.name && k == d.kind then [v] else []
      {
        ApplyEffect(l0, d, text, v, name, k);
      }
    }
  }

  lemma {:induction false} LoadSaved(ds: seq<Desc>, l0: seq<Node>, l: seq<Node>, i: nat) returns (l': seq<Node>)
    requires GoodDescs(ds) && i <= |ds|
    requires forall j :: i <= j < |ds| ==> Writable(l, ds[j]) && Values(l0, ds[j].name, ds[j].kind) == []
    ensures Load(ds, l0, Save(l, ds[i..])) == Some(l')
    ensures forall j :: i <= j < |ds| ==> SameAnswer(l, l', ds[j])
    ensures forall name: cstring, k :: (forall j :: i <= j < |ds| ==> ds[j].name != name) ==>
      Values(l', name, k) == Values(l0, name, k)
    decreases |ds| - i
  {
    hide Load, Save, PrintItem, Values, Writable, SameAnswer, GoodName;
    SaveFrom(l, ds, i);
    if i == |ds| {
      l' := l0;
      LoadNothing(ds, l0);
    } else {
      var l1 := LoadItem(ds, l0, l, i, Save(l, ds[i + 1..]));
      l' := LoadSaved(ds, l1, l, i + 1);
      SameValuesSameAnswer(l, l1, l', ds[i]);
    }
  }

  lemma SaveFrom(l: seq<Node>, ds: seq<Desc>, i: nat)
    requires i <= |ds|
    ensures Save(l, ds[i..]) == if i == |ds| then "" else PrintItem(l, ds[i]) + Save(l, ds[i + 1..])
  {
    hide PrintItem;
    if i < |ds| {
      assert ds[i..][0] == ds[i] && ds[i..][1..] == ds[i + 1..];
    }
  }

  lemma LoadNothing(ds: seq<Desc>, l: seq<Node>)
    ensures Load(ds, l, "") == Some(l)
  {
  }

  lemma SameValuesSameAnswer(l: seq<Node>, l1: seq<Node>, l2: seq<Node>, d: Desc)
    requires SameAnswer(l, l1, d) && Values(l2, d.name, d.kind) == Values(l1, d.name, d.kind)
    ensures SameAnswer(l, l2, d)
  {
    hide Values;
  }

  /** Whatever is loaded can be written. */
  lemma ApplyKeepsWritable(ds: seq<Desc>, l: seq<Node>, d: Desc, text: cstring)
    requires GoodDescs(ds) && d in ds && AllWritable(l, ds) && Plain(text) && |d.name| + |text| + 2 <= LINE_MAX
    ensures AllWritable(Apply(l, d, text), ds)
  {
    hide Values, Replace, Plain, Matches;
    var v := ValueOf(d.kind, text);
    forall e | e in ds ensures Writable(Apply(l, d, text), e) {
      assert Writable(l, e) && (e.name == d.name ==> e == d);
      MatchesIs(Node(d.name, v), e.name, StringKind);
      AddEffect(l, Node(d.name, v), e.name, StringKind);
      ReplaceEffect(l, d.name, v, 0, e.name, StringKind);
    }
  }

  lemma {:induction false} LoadKeepsWritable(ds: seq<Desc>, l: seq<Node>, text: string)
    requires GoodDescs(ds) && AllWritable(l, ds)
    ensures match Load(ds, l, text) case Some(l') => AllWritable(l', ds) case None => true
    decreases |text|
  {
    hide AllWritable, GoodDescs, ParseChunk, Apply, ChunkLength, Plain;
    if text != "" {
      var n := ChunkLength(text);
      ParsedIsPlain(text);
      match ParseChunk(text[..n]) {
        case Setting(keyword, value) =>
          match FindDesc(ds, keyword) {
            case Some(d) =>
              ApplyKeepsWritable(ds, l, d, value);
              LoadKeepsWritable(ds, Apply(l, d, value), text[n..]);
            case None => LoadKeepsWritable(ds, l, text[n..]);
          }
        case Nothing => LoadKeepsWritable(ds, l, text[n..]);
        case Overrun =>
      }
    }
  }

  /** Loading the saved text into an empty list gives the same answer to every question about a
      described item exactly when all strings of described items can be written. */
  lemma RoundTrip(ds: seq<Desc>, l: seq<Node>)
    requires GoodDescs(ds)
    ensures (match Load(ds, [], Save(l, ds)) case Some(l') => SameAnswers(l, l', ds) case None => false)
      <==> AllWritable(l, ds)
  {
    hide GoodDescs, Load, Save;
    if AllWritable(l, ds) {
      assert ds[0..] == ds;
      var l' := LoadSaved(ds, [], l, 0);
    } else {
      LoadKeepsWritable(ds, [], Save(l, ds));
    }
  }

  /** Saving writes nothing but the answers. */
  lemma {:induction false} SaveShowsAnswers(l: seq<Node>, l': seq<Node>, ds: seq<Desc>)
    requires SameAnswers(l, l', ds)
    ensures Save(l', ds) == Save(l, ds)
  {
    if ds != [] {
      assert SameAnswer(l, l', ds[0]);
      assert forall d :: d in ds[1..] ==> d in ds;
      SaveShowsAnswers(l, l', ds[1..]);
    }
  }
}
