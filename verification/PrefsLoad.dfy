/** What loading a text does to preferences that are there already: the answers afterwards, told by
    the lines of the text. */
module PrefsLoad {
  import opened Options
  import opened MacMemory
  import opened PrefsText
  import opened PrefsList

  // ------------------------------------------------------------- what lines say

  predicate Blank(s: string) {
    s != "" && forall c :: c in s ==> IsSpace(c) && c != '\n'
  }

  lemma {:induction false} SkipBlank(s: string, v: string)
    requires (forall c :: c in s ==> IsSpace(c)) && !StartsWithSpace(v)
    ensures SkipSpace(s + v) == v
  {
    if s == "" {
      assert s + v == v;
    } else {
      assert (s + v)[0] == s[0] && (s + v)[1..] == s[1..] + v;
      SkipBlank(s[1..], v);
    }
  }

  /** A keyword, any white space and a value make up a setting. */
  lemma SpacedLineParses(name: cstring, gap: string, value: cstring, rest: string)
    requires GoodName(name) && Blank(gap) && Plain(value) && |name| + |gap| + |value| + 1 <= LINE_MAX
    ensures var line := name + gap + value + "\n";
      && ChunkLength(line + rest) == |line| && (line + rest)[..|line|] == line && (line + rest)[|line|..] == rest
      && ParseChunk(line) == Setting(name, value)
  {
    var l := name + gap + value;
    var line := l + "\n";
    assert forall c :: c in gap ==> c != '\0' && c != '\n';
    assert '\n' !in name && '\0' !in l && '\n' !in l;
    WholeLine(l, rest);
    WordEndOf(name, gap, value);
    assert l[..|name|] == name && l[|name| + 1..] == gap[1..] + value;
    SkipBlank(gap[1..], value);
  }

  lemma WordEndOf(name: cstring, gap: string, value: string)
    requires GoodName(name) && Blank(gap)
    ensures WordEnd(name + gap + value) == |name|
  {
    var l := name + gap + value;
    assert forall i :: 0 <= i < |name| ==> l[i] == name[i];
    assert l[|name|] == gap[0];
    WordEndIs(l, |name|);
  }

  /** A line that fits is taken as a whole, without its newline. */
  lemma WholeLine(l: cstring, rest: string)
    requires '\n' !in l && |l| < LINE_MAX
    ensures var line := l + "\n";
      && ChunkLength(line + rest) == |line| && (line + rest)[..|line|] == line && (line + rest)[|line|..] == rest
      && ParseChunk(line) == ParseLine(l)
  {
    hide ParseLine;
    var line := l + "\n";
    assert (line + rest)[..|l|] == l && (line + rest)[|l|] == '\n';
    NewlineIs(line + rest, |l|);
    StrlenIs(line, |line|);
    assert line[..|l|] == l;
  }

  /** A comment says nothing: loading goes on with the next line. */
  lemma CommentIsSkipped(ds: seq<Desc>, l: seq<Node>, mark: char, comment: cstring, rest: string)
    requires (mark == '#' || mark == ';') && '\n' !in comment && |comment| + 1 < LINE_MAX
    ensures Load(ds, l, [mark] + comment + "\n" + rest) == Load(ds, l, rest)
  {
    var line := [mark] + comment;
    WholeLine(line, rest);
    assert [mark] + comment + "\n" + rest == (line + "\n") + rest;
  }

  // ------------------------------------------------------------- the settings of a text

  /** The values on the lines with the given keyword, first to last. */
  function TextsOf(text: string, name: string): seq<cstring>
    decreases |text|
  {
    if text == "" then [] else
    var n := ChunkLength(text);
    match ParseChunk(text[..n])
    case Setting(keyword, value) => (if keyword == name then [value] else []) + TextsOf(text[n..], name)
    case _ => TextsOf(text[n..], name)
  }

  /** ds[i] is the first descriptor of its name. */
  predicate Describes(ds: seq<Desc>, i: nat) {
    i < |ds| && forall j :: 0 <= j < i ==> ds[j].name != ds[i].name
  }

  lemma {:induction false} FirstIsFound(ds: seq<Desc>, i: nat)
    requires Describes(ds, i)
    ensures FindDesc(ds, ds[i].name) == Some(ds[i])
  {
    if i > 0 {
      assert ds[0].name != ds[i].name;
      FirstIsFound(ds[1..], i - 1);
    }
  }

  function Strs(ts: seq<cstring>): (r: seq<Value>)
    ensures |r| == |ts| && forall i :: 0 <= i < |ts| ==> r[i] == Str(ts[i])
  {
    seq(|ts|, i requires 0 <= i < |ts| => Str(ts[i]))
  }

  /** The values of a described name after values vs and the texts ts: a multiple item collects them,
      another one has its first value replaced by the last. */
  function Set(d: Desc, vs: seq<Value>, ts: seq<cstring>): seq<Value> {
    if d.kind == StringKind && d.multiple then vs + Strs(ts)
    else if ts == [] then vs
    else
      var v := ValueOf(d.kind, ts[|ts| - 1]);
      if vs == [] then [v] else vs[0 := v]
  }

  lemma SetMore(d: Desc, vs: seq<Value>, t: cstring, ts: seq<cstring>)
    ensures Set(d, Set(d, vs, [t]), ts) == Set(d, vs, [t] + ts)
  {
    if d.kind == StringKind && d.multiple {
      assert Strs([t]) + Strs(ts) == Strs([t] + ts);
      assert vs + Strs([t]) + Strs(ts) == vs + (Strs([t]) + Strs(ts));
    } else if ts != [] {
      assert ([t] + ts)[|ts|] == ts[|ts| - 1];
    }
  }

  lemma ApplySets(l: seq<Node>, d: Desc, t: cstring, name: cstring, k: Kind)
    ensures Values(Apply(l, d, t), name, k) ==
      if name == d.name && k == d.kind then Set(d, Values(l, name, k), [t]) else Values(l, name, k)
  {
    hide Values, Replace;
    var v := ValueOf(d.kind, t);
    AddEffect(l, Node(d.name, v), name, k);
    ReplaceEffect(l, d.name, v, 0, name, k);
    assert [v][0] == v && Strs([t]) == [Str(t)];
  }

  lemma {:induction false} LoadSets(ds: seq<Desc>, l: seq<Node>, text: string, l': seq<Node>, i: nat, k: Kind)
    requires Load(ds, l, text) == Some(l') && i < |ds| && Describes(ds, i)
    ensures Values(l', ds[i].name, k) ==
      if k != ds[i].kind then Values(l, ds[i].name, k)
      else Set(ds[i], Values(l, ds[i].name, k), TextsOf(text, ds[i].name))
    decreases |text|
  {
    hide Values, Apply, ParseChunk, ChunkLength, FindDesc, Set, Describes;
    var d := ds[i];
    if text == "" {
      NothingSet(d, Values(l, d.name, k));
    } else {
      var n := ChunkLength(text);
      var l1 := Step(ds, l, text[..n]).value;
      LoadSets(ds, l1, text[n..], l', i, k);
      match ParseChunk(text[..n])
      case Setting(keyword, value) =>
        FirstIsFound(ds, i);
        var e, more := FindDesc(ds, keyword), TextsOf(text[n..], d.name);
        assert TextsOf(text, d.name) == (if keyword == d.name then [value] else []) + more;
        assert [] + more == more;
        if e.Some? {
          ApplySets(l, e.value, value, d.name, k);
          SetMore(d, Values(l, d.name, k), value, more);
        }
      case _ =>
    }
  }

  lemma NothingSet(d: Desc, vs: seq<Value>)
    ensures Set(d, vs, []) == vs
  {
    assert vs + [] == vs;
  }

  /** The answers after loading. A described name that may not occur several times answers with the
      value on the last line that names it, and as before if there is no such line; a multiple string
      has the values of its lines after those it had. */
  lemma LoadedAnswers(ds: seq<Desc>, l: seq<Node>, text: string, l': seq<Node>, i: nat)
    requires Load(ds, l, text) == Some(l') && i < |ds| && Describes(ds, i)
    ensures var d, ts := ds[i], TextsOf(text, ds[i].name);
      && (forall k :: k != d.kind || ts == [] ==> Values(l', d.name, k) == Values(l, d.name, k))
      && (d.kind == StringKind && d.multiple ==>
            Values(l', d.name, StringKind) == Values(l, d.name, StringKind) + Strs(ts))
      && (ts != [] && d.kind == StringKind && !d.multiple ==> forall index: nat ::
            FindString(l', d.name, index) == if index == 0 then Some(ts[|ts| - 1]) else FindString(l, d.name, index))
      && (ts != [] && d.kind == BoolKind ==> (FindBool(l', d.name) <==> ts[|ts| - 1] == "true"))
      && (ts != [] && d.kind == IntKind ==> FindInt(l', d.name) == ToInt32(Atol(ts[|ts| - 1])))
  {
    hide Values, Load, TextsOf, Describes;
    var d, ts := ds[i], TextsOf(text, ds[i].name);
    LoadSets(ds, l, text, l', i, d.kind);
    NothingSet(d, Values(l, d.name, d.kind));
    forall k | k != d.kind || ts == [] ensures Values(l', d.name, k) == Values(l, d.name, k) {
      LoadSets(ds, l, text, l', i, k);
    }
  }

  /** Names that are not described stay as they were. */
  lemma {:induction false} UndescribedStays(ds: seq<Desc>, l: seq<Node>, text: string, l': seq<Node>, name: cstring,
                                            k: Kind)
    requires Load(ds, l, text) == Some(l') && forall d :: d in ds ==> d.name != name
    ensures Values(l', name, k) == Values(l, name, k)
    decreases |text|
  {
    hide Values, Apply, ParseChunk, ChunkLength;
    if text != "" {
      var n := ChunkLength(text);
      var l1 := Step(ds, l, text[..n]).value;
      UndescribedStays(ds, l1, text[n..], l', name, k);
      match ParseChunk(text[..n])
      case Setting(keyword, value) =>
        var e := FindDesc(ds, keyword);
        if e.Some? {
          ApplySets(l, e.value, value, name, k);
        }
      case _ =>
    }
  }
}
