/** The script handling of `sendRequest`: splitting the text into lines, trimming them,
    dropping blank and `;` comment lines, counting the rest and building the request. */
module Script {
  import opened Bytes
  import opened Radix
  import opened Results

  /** A character `String.prototype.trim` removes: white space or a line terminator. */
  predicate IsSpace(c: char)
  {
    var x := c as int;
    x == 0x09 || x == 0x0A || x == 0x0B || x == 0x0C || x == 0x0D || x == 0x20
    || x == 0xA0 || x == 0x1680 || 0x2000 <= x <= 0x200A || x == 0x2028 || x == 0x2029
    || x == 0x202F || x == 0x205F || x == 0x3000 || x == 0xFEFF
  }

  /** The number of leading spaces of `s`. */
  function LeadingSpaces(s: string): (k: nat)
    ensures k <= |s|
  {
    if s != [] && IsSpace(s[0]) then 1 + LeadingSpaces(s[1..]) else 0
  }

  /** `s` with its leading spaces removed. */
  function TrimStart(s: string): string
  {
    if s != [] && IsSpace(s[0]) then TrimStart(s[1..]) else s
  }

  /** `s` with its trailing spaces removed. */
  function TrimEnd(s: string): string
  {
    if s != [] && IsSpace(s[|s| - 1]) then TrimEnd(s[..|s| - 1]) else s
  }

  /** `s.trim()`: no longer than `s`, and neither starting nor ending with a space. */
  function Trim(s: string): (r: string)
    ensures |r| <= |s|
    ensures Unpadded(r)
  {
    TrimStartSpec(s);
    TrimEndSpec(TrimStart(s));
    TrimEnd(TrimStart(s))
  }

  /** Trimming the start drops exactly the leading spaces. */
  lemma {:induction false} TrimStartSpec(s: string)
    ensures TrimStart(s) == s[LeadingSpaces(s)..]
    ensures forall i :: 0 <= i < LeadingSpaces(s) ==> IsSpace(s[i])
    ensures TrimStart(s) == [] || !IsSpace(TrimStart(s)[0])
    decreases |s|
  {
    if s != [] && IsSpace(s[0]) {
      TrimStartSpec(s[1..]);
      assert s[1..][LeadingSpaces(s[1..])..] == s[LeadingSpaces(s)..];
    }
  }

  /** Trimming the end keeps a prefix and drops only spaces. */
  lemma {:induction false} TrimEndSpec(s: string)
    ensures |TrimEnd(s)| <= |s| && TrimEnd(s) == s[..|TrimEnd(s)|]
    ensures forall i :: |TrimEnd(s)| <= i < |s| ==> IsSpace(s[i])
    ensures TrimEnd(s) == [] || !IsSpace(TrimEnd(s)[|TrimEnd(s)| - 1])
    decreases |s|
  {
    if s != [] && IsSpace(s[|s| - 1]) {
      TrimEndSpec(s[..|s| - 1]);
    }
  }

  /** `s.trim()` is the part of `s` between its leading and its trailing spaces: what it
      drops is spaces, it neither starts nor ends with one, and it is empty exactly when
      `s` is nothing but spaces. */
  lemma TrimSpec(s: string)
    ensures var r, k := Trim(s), LeadingSpaces(s);
      k + |r| <= |s| && r == s[k..k + |r|]
      && (forall i :: 0 <= i < k ==> IsSpace(s[i]))
      && (forall i :: k + |r| <= i < |s| ==> IsSpace(s[i]))
      && (r == [] || (!IsSpace(r[0]) && !IsSpace(r[|r| - 1])))
      && (r == [] <==> forall i :: 0 <= i < |s| ==> IsSpace(s[i]))
  {
    var k := LeadingSpaces(s);
    var t := TrimStart(s);
    TrimStartSpec(s);
    TrimEndSpec(t);
    var r := TrimEnd(t);
    assert r == s[k..][..|r|] == s[k..k + |r|];
    forall i | k + |r| <= i < |s| ensures IsSpace(s[i]) {
      assert s[i] == t[i - k];
    }
    if r != [] {
      assert r[0] == t[0];
    }
  }

  /** A line that neither starts nor ends with a space. */
  predicate Unpadded(s: string)
  {
    s == [] || (!IsSpace(s[0]) && !IsSpace(s[|s| - 1]))
  }

  /** A line that neither starts nor ends with a space is its own trimmed form. */
  lemma TrimUnpadded(s: string)
    requires Unpadded(s)
    ensures Trim(s) == s
  {
    assert TrimStart(s) == s;
    assert TrimEnd(s) == s;
  }

  /** Trimming a trimmed line changes nothing. */
  lemma TrimTrimmed(s: string)
    ensures Trim(Trim(s)) == Trim(s)
  {
    TrimSpec(s);
    TrimUnpadded(Trim(s));
  }

  /** `text.split('\n')`. */
  function Lines(text: string): (lines: seq<string>)
    ensures |lines| >= 1
  {
    Split(text, '\n')
  }

  /** What both filters keep: a trimmed line that is not empty and does not start with `;`. */
  predicate IsItem(trimmed: string)
  {
    trimmed != [] && trimmed[0] != ';'
  }

  /** The count at line 173: lines whose trimmed form is an item. */
  function CountItems(lines: seq<string>): (r: nat)
    ensures r <= |lines|
  {
    if lines == [] then 0
    else CountItems(lines[..|lines| - 1]) + (if IsItem(Trim(lines[|lines| - 1])) then 1 else 0)
  }

  /** `lines.map(line => line.trim())`. */
  function TrimAll(lines: seq<string>): (r: seq<string>)
    ensures |r| == |lines|
  {
    if lines == [] then [] else TrimAll(lines[..|lines| - 1]) + [Trim(lines[|lines| - 1])]
  }

  /** Each line is trimmed in place. */
  lemma {:induction false} TrimAllAt(lines: seq<string>, i: nat)
    requires i < |lines|
    ensures TrimAll(lines)[i] == Trim(lines[i])
    decreases |lines|
  {
    if i < |lines| - 1 {
      TrimAllAt(lines[..|lines| - 1], i);
    }
  }

  /** `.filter(line => line && !line.startsWith(';'))`. */
  function KeepItems(ts: seq<string>): (r: seq<string>)
    ensures |r| <= |ts|
    ensures forall i :: 0 <= i < |r| ==> IsItem(r[i])
  {
    if ts == [] then []
    else KeepItems(ts[..|ts| - 1]) + (if IsItem(ts[|ts| - 1]) then [ts[|ts| - 1]] else [])
  }

  /** `itemCount` as line 173 computes it from the script. */
  function ItemCount(text: string): (r: nat)
    ensures r <= |Lines(text)|
    ensures r == |RequestLines(text)|
  {
    KeptCount(Lines(text));
    CountItems(Lines(text))
  }

  /** The `request` list of line 180. */
  function RequestLines(text: string): (r: seq<string>)
    ensures |r| <= |Lines(text)|
    ensures forall i :: 0 <= i < |r| ==> IsItem(r[i])
  {
    KeepItems(TrimAll(Lines(text)))
  }

  /** Filtering commutes with concatenation: the kept lines stay in their original order. */
  lemma {:induction false} KeepItemsAppend(a: seq<string>, b: seq<string>)
    ensures KeepItems(a + b) == KeepItems(a) + KeepItems(b)
    decreases |b|
  {
    if b == [] {
      assert a + b == a;
    } else {
      var c := a + b;
      assert c[..|c| - 1] == a + b[..|b| - 1];
      KeepItemsAppend(a, b[..|b| - 1]);
    }
  }

  /** A kept line is one of the inputs, and an item. */
  lemma {:induction false} KeepItemsMembers(ts: seq<string>)
    ensures forall t :: t in KeepItems(ts) <==> t in ts && IsItem(t)
    decreases |ts|
  {
    if ts != [] {
      KeepItemsMembers(ts[..|ts| - 1]);
      assert ts == ts[..|ts| - 1] + [ts[|ts| - 1]];
    }
  }

  /** The list that is sent has as many lines as the count of line 173. */
  lemma {:induction false} KeptCount(lines: seq<string>)
    ensures |KeepItems(TrimAll(lines))| == CountItems(lines)
    decreases |lines|
  {
    if lines != [] {
      var front := lines[..|lines| - 1];
      KeptCount(front);
      assert TrimAll(lines)[..|lines| - 1] == TrimAll(front);
    }
  }

  /** The request's lines are exactly the trimmed script lines that are items: each is
      non-empty, already trimmed and not a comment, and their number is `itemCount`. */
  lemma RequestLinesSound(text: string)
    ensures |RequestLines(text)| == ItemCount(text)
    ensures forall t :: t in RequestLines(text) <==> t in TrimAll(Lines(text)) && IsItem(t)
    ensures forall t :: t in RequestLines(text) ==> t != [] && t[0] != ';' && Trim(t) == t
  {
    KeptCount(Lines(text));
    KeepItemsMembers(TrimAll(Lines(text)));
    forall t | t in RequestLines(text) ensures Trim(t) == t {
      var i :| 0 <= i < |Lines(text)| && TrimAll(Lines(text))[i] == t;
      TrimAllAt(Lines(text), i);
      TrimTrimmed(Lines(text)[i]);
    }
  }

  /** Lines without surrounding spaces are left as they are. */
  lemma {:induction false} TrimAllUnpadded(lines: seq<string>)
    requires forall i :: 0 <= i < |lines| ==> Unpadded(lines[i])
    ensures TrimAll(lines) == lines
    decreases |lines|
  {
    if lines != [] {
      TrimAllUnpadded(lines[..|lines| - 1]);
      TrimUnpadded(lines[|lines| - 1]);
    }
  }

  lemma ExampleLines()
    ensures Lines("a\n;comment\n\nb") == ["a", ";comment", "", "b"]
  {
    var lines := ["a", ";comment", "", "b"];
    assert Join(lines, '\n') == "a\n;comment\n\nb";
    SplitJoin(lines, '\n');
  }

  lemma ExampleTrimmed()
    ensures TrimAll(["a", ";comment", "", "b"]) == ["a", ";comment", "", "b"]
  {
    var lines := ["a", ";comment", "", "b"];
    assert Unpadded(lines[0]) && Unpadded(lines[1]) && Unpadded(lines[2]) && Unpadded(lines[3]);
    TrimAllUnpadded(lines);
  }

  lemma ExampleKept()
    ensures KeepItems(["a", ";comment", "", "b"]) == ["a", "b"]
  {
    assert ["a", ";comment"] + [""] == ["a", ";comment", ""];
    assert ["a", ";comment", ""] + ["b"] == ["a", ";comment", "", "b"];
    KeepItemsAppend(["a", ";comment", ""], ["b"]);
    KeepItemsAppend(["a", ";comment"], [""]);
    KeepItemsAppend(["a"], [";comment"]);
    assert KeepItems(["a"]) == ["a"];
    assert KeepItems([";comment"]) == [];
    assert KeepItems([""]) == [];
    assert KeepItems(["b"]) == ["b"];
  }

  /** The scenario `"a\n;comment\n\nb"`: two items, `a` and `b`. */
  lemma ScriptExample()
    ensures Lines("a\n;comment\n\nb") == ["a", ";comment", "", "b"]
    ensures RequestLines("a\n;comment\n\nb") == ["a", "b"]
    ensures ItemCount("a\n;comment\n\nb") == 2
  {
    ExampleLines();
    ExampleTrimmed();
    ExampleKept();
    KeptCount(["a", ";comment", "", "b"]);
  }

  /** The session-type tag of every outgoing message. */
  const UserTag := 2

  /** The fixed id of a direct-play request. */
  const QuickspeakId := "quickspeak"

  /** The JSON control message `{id, user, request}`. */
  datatype Request = Request(id: string, user: int, request: seq<string>)

  /** The message `sendRequest` sends; `renderID` is the token in effect once the render
      branch has run. `requestId || 'quickspeak'` falls back on an absent or empty id. */
  function BuildRequest(text: string, rendering: bool, renderID: nat): (r: Request)
    ensures rendering ==> r.id == Decimal(renderID)
    ensures r.id == QuickspeakId <==> !rendering
    ensures r.user == UserTag
    ensures r.request == RequestLines(text)
    ensures |r.request| == ItemCount(text)
    ensures forall t :: t in r.request ==> t != [] && t[0] != ';' && Trim(t) == t
  {
    RequestLinesSound(text);
    var requestId := if rendering then Some(Decimal(renderID)) else None;
    var id := if requestId.Some? && requestId.value != "" then requestId.value else QuickspeakId;
    Request(id, UserTag, RequestLines(text))
  }
}
