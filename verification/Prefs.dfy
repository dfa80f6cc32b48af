/** Preferences as the program keeps them: a linked list of mutable nodes, a printer and a parser
    that works in a line buffer. */
module Prefs {
  import opened Options
  import opened MacMemory
  import opened PrefsText
  import opened PrefsList

  const BUFFER_SIZE: nat := 256

  // ------------------------------------------------------------- the line buffer

  lemma ChunkIs(s: string, n: nat)
    requires 0 < n <= |s| && n <= LINE_MAX && '\n' !in s[..n - 1] && (s[n - 1] == '\n' || n == LINE_MAX || n == |s|)
    ensures ChunkLength(s) == n
  {
    if s[n - 1] == '\n' {
      NewlineIs(s, n - 1);
    } else {
      assert s[..n] == s[..n - 1] + [s[n - 1]];
      NewlineNotBefore(s, n);
    }
  }

  lemma {:induction false} NewlineNotBefore(s: string, n: nat)
    requires n <= |s| && '\n' !in s[..n]
    ensures NewlineAt(s) >= n
  {
    if n > 0 {
      assert s[..n][0] == s[0] && s[1..][..n - 1] == s[..n][1..];
      NewlineNotBefore(s[1..], n - 1);
    }
  }

  /** Only what precedes the terminating NUL matters. */
  lemma BufferParses(buffer: string, n: nat)
    requires n < |buffer| && buffer[n] == '\0'
    ensures ParseChunk(buffer) == ParseChunk(buffer[..n])
  {
    var k := Strlen(buffer[..n]);
    assert buffer[..k] == buffer[..n][..k];
    StrlenIs(buffer, k);
    assert k > 0 ==> buffer[..k - 1] == buffer[..n][..k - 1];
  }

  /** fgets(): take the next chunk of the text into the buffer and terminate it. */
  method Fgets(line: array<char>, text: string) returns (n: nat)
    requires line.Length == BUFFER_SIZE
    modifies line
    ensures n == ChunkLength(text) && line[..n] == text[..n] && (n > 0 ==> line[n] == '\0')
  {
    n := 0;
    while n < LINE_MAX && n < |text|
      invariant n <= LINE_MAX && n <= |text| && line[..n] == text[..n] && '\n' !in text[..n]
    {
      line[n] := text[n];
      n := n + 1;
      assert text[..n] == text[..n - 1] + [text[n - 1]];
      if text[n - 1] == '\n' {
        break;
      }
    }
    if n > 0 {
      ChunkIs(text, n);
      line[n] := '\0';
    }
  }

  /** Take the line in the buffer apart in place. */
  method ParseBuffer(line: array<char>) returns (r: Parsed)
    requires Strlen(line[..]) < line.Length
    modifies line
    ensures r == ParseChunk(old(line[..]))
  {
    hide Strlen, ParseLine;
    ghost var buffer := line[..];
    var len := StrlenOf(line);
    if len == 0 {
      return Nothing;
    }
    line[len - 1] := '\0';
    assert line[..len - 1] == buffer[..len - 1] == buffer[..len][..len - 1];
    r := ParseTerminated(line, len - 1);
  }

  method ParseTerminated(line: array<char>, end: nat) returns (r: Parsed)
    requires end < line.Length && line[end] == '\0' && '\0' !in line[..end]
    modifies line
    ensures r == ParseLine(old(line[..end]))
  {
    hide WordEnd, SkipSpace;
    ghost var s: cstring := line[..end];
    if line[0] == '#' || line[0] == ';' {
      return Nothing;
    }
    var k := 0;
    while k < end && !IsSpace(line[k])
      invariant k <= end && forall i :: 0 <= i < k ==> !IsSpace(s[i])
      modifies {}
    {
      k := k + 1;
    }
    WordEndIs(s, k);
    if k == end {
      return Overrun;
    }
    line[k] := '\0';
    assert line[k + 1..end] == s[k + 1..] && line[..k] == s[..k];
    var p := SkipBlanks(line, k + 1, end);
    return Setting(line[..k], line[p..end]);
  }

  method SkipBlanks(line: array<char>, from: nat, end: nat) returns (p: nat)
    requires from <= end < line.Length && line[end] == '\0'
    ensures from <= p <= end && line[p..end] == SkipSpace(line[from..end])
  {
    hide SkipSpace;
    p := from;
    while IsSpace(line[p])
      invariant from <= p <= end && SkipSpace(line[from..end]) == SkipSpace(line[p..end])
      decreases end - p
    {
      SkipsOne(line[p..end]);
      assert line[p..end][1..] == line[p + 1..end];
      p := p + 1;
    }
    SkipsNone(line[p..end]);
  }

  lemma SkipsOne(s: string)
    requires StartsWithSpace(s)
    ensures SkipSpace(s) == SkipSpace(s[1..])
  {
  }

  lemma SkipsNone(s: string)
    requires !StartsWithSpace(s)
    ensures SkipSpace(s) == s
  {
  }

  method StrlenOf(line: array<char>) returns (n: nat)
    requires Strlen(line[..]) < line.Length
    ensures n == Strlen(line[..])
  {
    n := 0;
    while line[n] != '\0'
      invariant n <= Strlen(line[..]) && '\0' !in line[..n]
      decreases line.Length - n
    {
      assert line[..n + 1] == line[..n] + [line[n]];
      n := n + 1;
    }
    StrlenIs(line[..], n);
  }

  // ------------------------------------------------------------- the list

  class PrefsNode {
    var next: PrefsNode?
    const name: cstring
    var data: Value

    constructor (name: cstring, data: Value)
      ensures next == null && this.name == name && this.data == data
    {
      this.next, this.name, this.data := null, name, data;
    }
  }

  class Preferences {
    const commonItems: seq<Desc>
    const platformItems: seq<Desc>
    var thePrefs: PrefsNode?
    ghost var nodes: seq<PrefsNode>
    ghost var list: seq<Node>

    /** The linked list is the sequence `nodes`, and `list` is its value. */
    ghost predicate Linked()
      reads this, nodes
    {
      && |nodes| == |list|
      && thePrefs == (if nodes == [] then null else nodes[0])
      && (forall i :: 0 <= i < |nodes| ==> NodeOk(nodes, list, i))
      && (forall i, j :: 0 <= i < j < |nodes| ==> nodes[i] != nodes[j])
    }

    static ghost predicate NodeOk(nodes: seq<PrefsNode>, list: seq<Node>, i: nat)
      requires |nodes| == |list| && i < |nodes|
      reads nodes[i]
    {
      && nodes[i].next == (if i + 1 < |nodes| then nodes[i + 1] else null)
      && nodes[i].name == list[i].name && nodes[i].data == list[i].value
    }

    function Items(): seq<Desc> {
      commonItems + platformItems
    }

    constructor (commonItems: seq<Desc>, platformItems: seq<Desc>)
      ensures Linked() && list == [] && nodes == []
      ensures this.commonItems == commonItems && this.platformItems == platformItems
    {
      this.commonItems, this.platformItems := commonItems, platformItems;
      thePrefs, nodes, list := null, [], [];
    }

    /** Append a node at the end of the list. */
    method AddData(name: cstring, data: Value)
      requires Linked()
      modifies this, nodes
      ensures Linked() && list == old(list) + [Node(name, data)]
      ensures |nodes| == |old(nodes)| + 1 && nodes[..|old(nodes)|] == old(nodes) && fresh(nodes[|old(nodes)|])
    {
      var p := new PrefsNode(name, data);
      ghost var n, ns, l := |nodes|, nodes, list;
      assert forall i :: 0 <= i < n ==> NodeOk(ns, l, i);
      if thePrefs != null {
        var prev := thePrefs;
        ghost var j := 0;
        while prev.next != null
          invariant j < n && prev == ns[j]
          decreases n - j
          modifies {}
        {
          assert NodeOk(ns, l, j);
          prev := prev.next;
          j := j + 1;
        }
        assert NodeOk(ns, l, j);
        assert j == n - 1;
        prev.next := p;
      } else {
        thePrefs := p;
      }
      nodes, list := nodes + [p], list + [Node(name, data)];
      forall i | 0 <= i <= n ensures NodeOk(nodes, list, i) {
        if i < n {
          assert old(NodeOk(ns, l, i));
          assert nodes[i] == ns[i] && list[i] == l[i];
        }
      }
    }

    /** The index-th node with this name and type. */
    method FindNode(name: cstring, k: Kind, index: nat) returns (p: PrefsNode?)
      requires Linked()
      ensures var pos := Position(list, name, k, index);
        p == if pos < |nodes| then nodes[pos] else null
    {
      hide Position;
      p := thePrefs;
      var i := 0;
      ghost var j := 0;
      assert list[0..] == list;
      PositionStart(list, name, k, index, 0);
      while p != null
        invariant j <= |nodes| && i <= index && p == if j < |nodes| then nodes[j] else null
        invariant Position(list, name, k, index) == j + Position(list[j..], name, k, index - i)
        decreases |nodes| - j
      {
        assert NodeOk(nodes, list, j);
        PositionStart(list, name, k, index - i, j);
        if p.data.Kind() == k && p.name == name {
          if i == index {
            return;
          }
          i := i + 1;
        }
        p := p.next;
        j := j + 1;
      }
      PositionStart(list, name, k, index - i, j);
    }

    /** PrefsReplaceString, PrefsReplaceBool and PrefsReplaceInt32. */
    method PrefsReplace(name: cstring, v: Value, index: nat)
      requires Linked()
      modifies this, nodes
      ensures Linked() && list == Replace(old(list), name, v, index)
      ensures |old(nodes)| <= |nodes| && nodes[..|old(nodes)|] == old(nodes)
      ensures forall k :: |old(nodes)| <= k < |nodes| ==> fresh(nodes[k])
    {
      var p := FindNode(name, v.Kind(), index);
      if p != null {
        Overwrite(p, v, Position(list, name, v.Kind(), index));
      } else {
        AddData(name, v);
      }
    }

    method Overwrite(p: PrefsNode, v: Value, ghost pos: nat)
      requires Linked() && pos < |nodes| && p == nodes[pos]
      modifies this`list, p
      ensures Linked() && list == old(list)[pos := Node(old(list)[pos].name, v)]
    {
      ghost var l := list;
      assert forall i :: 0 <= i < |nodes| ==> NodeOk(nodes, l, i);
      p.data := v;
      list := list[pos := Node(list[pos].name, v)];
      forall i | 0 <= i < |nodes| ensures NodeOk(nodes, list, i) {
        assert old(NodeOk(nodes, l, i));
      }
    }

    method PrefsFindString(name: cstring, index: nat) returns (r: Option<cstring>)
      requires Linked()
      ensures r == FindString(list, name, index)
    {
      PositionHoldsValue(list, name, StringKind, index);
      var p := FindNode(name, StringKind, index);
      if p != null {
        assert NodeOk(nodes, list, Position(list, name, StringKind, index));
        r := Some(p.data.s);
      } else {
        r := None;
      }
    }

    method PrefsFindBool(name: cstring) returns (r: bool)
      requires Linked()
      ensures r == FindBool(list, name)
    {
      PositionHoldsValue(list, name, BoolKind, 0);
      var p := FindNode(name, BoolKind, 0);
      if p != null {
        assert NodeOk(nodes, list, Position(list, name, BoolKind, 0));
        r := p.data.b;
      } else {
        r := false;
      }
    }

    method PrefsFindInt32(name: cstring) returns (r: int32)
      requires Linked()
      ensures r == FindInt(list, name)
    {
      PositionHoldsValue(list, name, IntKind, 0);
      var p := FindNode(name, IntKind, 0);
      if p != null {
        assert NodeOk(nodes, list, Position(list, name, IntKind, 0));
        r := p.data.i;
      } else {
        r := 0;
      }
    }

    // ----------------------------------------------------------- descriptors

    static method FindIn(ds: seq<Desc>, name: cstring) returns (r: Option<Desc>)
      ensures r == FindDesc(ds, name)
    {
      assert ds[0..] == ds;
      for i := 0 to |ds|
        invariant FindDesc(ds, name) == FindDesc(ds[i..], name)
      {
        assert ds[i..][0] == ds[i] && ds[i..][1..] == ds[i + 1..];
        if ds[i].name == name {
          return Some(ds[i]);
        }
      }
      return None;
    }

    method FindPrefsDesc(name: cstring) returns (r: Option<Desc>)
      ensures r == FindDesc(Items(), name)
    {
      FindInBoth(commonItems, platformItems, name);
      r := FindIn(commonItems, name);
      if r == None {
        r := FindIn(platformItems, name);
      }
    }

    // ----------------------------------------------------------- loading and saving

    /** Read the text line by line; false if a line overruns. */
    method LoadPrefsFromStream(text: string) returns (ok: bool)
      requires Linked()
      modifies this, nodes
      ensures Linked()
      ensures match Load(Items(), old(list), text) case Some(l) => ok && list == l case None => !ok
      ensures ok <==> AllReadable(text)
      ensures |old(nodes)| <= |nodes| && nodes[..|old(nodes)|] == old(nodes)
      ensures forall k :: |old(nodes)| <= k < |nodes| ==> fresh(nodes[k])
    {
      hide AllReadable, ParseChunk, ChunkLength, Strlen, Apply, FindDesc, Replace;
      LoadSucceedsIff(Items(), list, text);
      var line := new char[BUFFER_SIZE];
      var rest := text;
      while rest != ""
        invariant Linked() && fresh(line) && line.Length == BUFFER_SIZE
        invariant Load(Items(), old(list), text) == Load(Items(), list, rest)
        invariant |old(nodes)| <= |nodes| && nodes[..|old(nodes)|] == old(nodes)
        invariant forall k :: |old(nodes)| <= k < |nodes| ==> fresh(nodes[k])
        decreases |rest|
      {
        var n := Fgets(line, rest);
        BufferParses(line[..], n);
        assert line[..][..n] == line[..n];
        StrlenFits(line[..], n);
        var parsed := ParseBuffer(line);
        match parsed {
          case Overrun => return false;
          case Nothing =>
          case Setting(keyword, value) =>
            var desc := FindPrefsDesc(keyword);
            if desc.Some? {
              ApplySetting(desc.value, value);
            }
        }
        rest := rest[n..];
      }
      ok := true;
    }

    method ApplySetting(d: Desc, text: cstring)
      requires Linked()
      modifies this, nodes
      ensures Linked() && list == Apply(old(list), d, text)
      ensures |old(nodes)| <= |nodes| && nodes[..|old(nodes)|] == old(nodes)
      ensures forall k :: |old(nodes)| <= k < |nodes| ==> fresh(nodes[k])
    {
      match d.kind {
        case StringKind =>
          if d.multiple {
            AddData(d.name, Str(text));
          } else {
            PrefsReplace(d.name, Str(text), 0);
          }
        case BoolKind => PrefsReplace(d.name, Bool(text == "true"), 0);
        case IntKind => PrefsReplace(d.name, Int(ToInt32(Atol(text))), 0);
      }
    }

    method WritePrefs(ds: seq<Desc>) returns (out: string)
      requires Linked()
      ensures out == Save(list, ds)
    {
      hide PrintItem, Linked, Values;
      out := "";
      assert ds[0..] == ds;
      for i := 0 to |ds|
        invariant Save(list, ds) == out + Save(list, ds[i..])
      {
        assert ds[i..][0] == ds[i] && ds[i..][1..] == ds[i + 1..];
        var item := WriteItem(ds[i]);
        out := out + item;
      }
    }

    method WriteItem(d: Desc) returns (out: string)
      requires Linked()
      ensures out == PrintItem(list, d)
    {
      match d.kind {
        case StringKind => out := WriteStrings(d.name);
        case BoolKind =>
          var b := PrefsFindBool(d.name);
          out := PrintLine(d.name, if b then "true" else "false");
        case IntKind =>
          var x := PrefsFindInt32(d.name);
          out := PrintLine(d.name, Decimal(x));
      }
    }

    method WriteStrings(name: cstring) returns (out: string)
      requires Linked()
      ensures out == PrintStrings(name, Values(list, name, StringKind))
    {
      hide Values, PrintLine;
      ghost var vs := Values(list, name, StringKind);
      out := "";
      var index := 0;
      var str := PrefsFindString(name, 0);
      assert vs[0..] == vs;
      while str.Some?
        invariant index <= |vs| && str == FindString(list, name, index)
        invariant PrintStrings(name, vs) == out + PrintStrings(name, vs[index..])
        decreases |vs| - index
      {
        assert vs[index..][0] == vs[index] && vs[index..][1..] == vs[index + 1..];
        out := out + PrintLine(name, str.value);
        index := index + 1;
        str := PrefsFindString(name, index);
      }
    }

    method SavePrefsToStream() returns (out: string)
      requires Linked()
      ensures out == Save(list, Items())
    {
      SaveInBoth(list, commonItems, platformItems);
      out := WritePrefs(commonItems);
      var more := WritePrefs(platformItems);
      out := out + more;
    }
  }

  /** The search from position j on looks at node j first. */
  lemma PositionStart(l: seq<Node>, name: cstring, k: Kind, index: nat, j: nat)
    requires j <= |l|
    ensures Position(l[j..], name, k, index) ==
      if j == |l| then 0
      else if l[j].name == name && l[j].value.Kind() == k then if index == 0 then 0
        else 1 + Position(l[j + 1..], name, k, index - 1)
      else 1 + Position(l[j + 1..], name, k, index)
  {
    if j < |l| {
      assert l[j..][0] == l[j] && l[j..][1..] == l[j + 1..];
    }
  }

  lemma {:induction false} StrlenFits(buffer: string, n: nat)
    requires n < |buffer| && buffer[n] == '\0'
    ensures Strlen(buffer) <= n
  {
    if buffer[0] != '\0' {
      StrlenFits(buffer[1..], n - 1);
    }
  }

  lemma {:induction false} FindInBoth(a: seq<Desc>, b: seq<Desc>, name: cstring)
    ensures FindDesc(a + b, name) == if FindDesc(a, name).Some? then FindDesc(a, name) else FindDesc(b, name)
  {
    if a == [] {
      assert a + b == b;
    } else {
      assert (a + b)[1..] == a[1..] + b;
      FindInBoth(a[1..], b, name);
    }
  }

  lemma {:induction false} SaveInBoth(l: seq<Node>, a: seq<Desc>, b: seq<Desc>)
    ensures Save(l, a + b) == Save(l, a) + Save(l, b)
  {
    if a == [] {
      assert a + b == b;
    } else {
      assert (a + b)[1..] == a[1..] + b;
      SaveInBoth(l, a[1..], b);
    }
  }
}
