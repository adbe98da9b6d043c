/** The render session: the module-level `renderCount`, `itemCount`, `renderID` and `zip`
    of app.js, what `handleBinaryMessage` does with a decoded frame, and the render branch
    of `sendRequest`. */
module Session {
  import opened Bytes
  import opened Radix
  import opened Results
  import opened Frame
  import opened Script

  /** The JSZip archive: file name to payload. */
  type Archive = map<seq<byte>, seq<byte>>

  /** `Math.floor(Math.random() * 0xffff)` lies in `[0, 0xfffe]`. */
  const MaxRenderID := 0xfffe

  /** The ASCII bytes of `.wav`. */
  const WavSuffix: seq<byte> := [0x2E, 0x77, 0x61, 0x76]

  /** The archive entry name of an item: `` `${itemKey}.wav` ``. */
  function FileName(key: seq<byte>): (name: seq<byte>)
    ensures |name| == |key| + 4 && name[..|key|] == key && name[|key|..] == WavSuffix
  {
    key + WavSuffix
  }

  /** The session variables. */
  datatype State = State(renderCount: nat, itemCount: nat, renderID: nat, zip: Archive)

  /** The state after a completed render: counters zero and a fresh archive; the token stays. */
  function Reset(renderID: nat): (r: State)
    ensures r.renderCount == 0 && r.itemCount == 0 && |r.zip| == 0
    ensures r.renderID == renderID
  {
    State(0, 0, renderID, map[])
  }

  /** What a frame leads to besides the new state. */
  datatype Event =
    | Ignored                                // `getUint16` threw, or the identifier was malformed
    | Played(audio: seq<byte>)               // `playAudioFromData(audioData)`
    | Progress(received: nat, expected: nat) // `Rendering... (received/expected)`
    | Completed(archive: Archive)            // `saveAs` of the packaged archive

  /** `handleBinaryMessage` on one frame. The reset that the source runs once
      `generateAsync` resolves happens here at once. */
  function OnFrame(s: State, data: seq<byte>): (r: (State, Event))
    ensures r.0.renderID == s.renderID
    ensures r.1.Ignored? || r.1.Played? ==> r.0 == s
  {
    match Decode(data)
    case Err(_) => (s, Ignored)
    case Ok(f) =>
      match Classify(f.id, s.renderID)
      case Malformed => (s, Ignored)
      case DirectPlay => (s, Played(f.payload))
      case RenderItem(key) =>
        var count := s.renderCount + 1;
        var zip := s.zip[FileName(key) := f.payload];
        if count == s.itemCount then (Reset(s.renderID), Completed(zip))
        else (State(count, s.itemCount, s.renderID, zip), Progress(count, s.itemCount))
  }

  /** The render branch of `sendRequest`: count the items, zero the received count and draw
      a new token. The archive is left as it was. */
  function StartRender(s: State, text: string, newID: nat): (t: State)
    requires newID <= MaxRenderID
    ensures t.itemCount == |RequestLines(text)|
    ensures t.renderCount == 0 && t.renderID == newID && t.zip == s.zip
  {
    RequestLinesSound(text);
    State(0, ItemCount(text), newID, s.zip)
  }

  /** A frame changes nothing and delivers nothing exactly when it is too short to hold a
      length or its identifier has fewer than two `_`. */
  lemma IgnoredIffMalformed(s: State, data: seq<byte>)
    ensures OnFrame(s, data).1 == Ignored
        <==> |data| < 2 || Occurrences(Decode(data).value.id, Underscore) < 2
    ensures OnFrame(s, data).1 == Ignored ==> OnFrame(s, data).0 == s
  {
  }

  /** A frame whose identifier has fewer than three parts leaves counters, token and
      archive as they were and plays nothing. */
  lemma MalformedFrame(s: State, id: seq<byte>, payload: seq<byte>)
    requires |id| < 0x1_0000 && Occurrences(id, Underscore) < 2
    ensures OnFrame(s, Encode(Frame(id, payload))) == (s, Ignored)
  {
    DecodeEncode(Frame(id, payload));
  }

  /** A frame `<kind>_<renderID>_<key>[_…]` is archived under `<key>.wav`, never played:
      the received count goes up by one, or, when it reaches the item count, the archive
      with the new entry is delivered and the session is reset. */
  lemma MatchingFrame(s: State, kind: seq<byte>, key: seq<byte>, more: seq<seq<byte>>, payload: seq<byte>)
    requires Underscore !in kind && Underscore !in key
    requires forall i :: 0 <= i < |more| ==> Underscore !in more[i]
    requires |Join([kind, Token(s.renderID), key] + more, Underscore)| < 0x1_0000
    ensures var r := OnFrame(s, Encode(Frame(Join([kind, Token(s.renderID), key] + more, Underscore), payload)));
      var zip := s.zip[FileName(key) := payload];
      if s.renderCount + 1 == s.itemCount
      then r == (Reset(s.renderID), Completed(zip))
      else r == (State(s.renderCount + 1, s.itemCount, s.renderID, zip), Progress(s.renderCount + 1, s.itemCount))
  {
    var id := Join([kind, Token(s.renderID), key] + more, Underscore);
    DecodeEncode(Frame(id, payload));
    ClassifyParts(kind, Token(s.renderID), key, more, s.renderID);
  }

  /** A frame whose token is not the current one goes to playback and changes nothing. */
  lemma ForeignFrame(s: State, kind: seq<byte>, token: seq<byte>, key: seq<byte>, more: seq<seq<byte>>, payload: seq<byte>)
    requires Underscore !in kind && Underscore !in token && Underscore !in key
    requires forall i :: 0 <= i < |more| ==> Underscore !in more[i]
    requires token != Token(s.renderID)
    requires |Join([kind, token, key] + more, Underscore)| < 0x1_0000
    ensures OnFrame(s, Encode(Frame(Join([kind, token, key] + more, Underscore), payload))) == (s, Played(payload))
  {
    var id := Join([kind, token, key] + more, Underscore);
    DecodeEncode(Frame(id, payload));
    ClassifyParts(kind, token, key, more, s.renderID);
  }

  /** A frame completes the render exactly when it is an item of the current render and
      brings the received count up to the item count; completion resets the session. */
  lemma CompletionIff(s: State, data: seq<byte>)
    ensures OnFrame(s, data).1.Completed?
        <==> Decode(data).Ok? && Classify(Decode(data).value.id, s.renderID).RenderItem?
             && s.renderCount + 1 == s.itemCount
    ensures OnFrame(s, data).1.Completed? ==> OnFrame(s, data).0 == Reset(s.renderID)
  {
  }

  /** A frame is an item of render `renderID`. */
  predicate IsItemOf(data: seq<byte>, renderID: nat)
  {
    Decode(data).Ok? && Classify(Decode(data).value.id, renderID).RenderItem?
  }

  /** Frames handled one after the other. */
  function Run(s: State, frames: seq<seq<byte>>): (r: (State, seq<Event>))
    ensures |r.1| == |frames|
    decreases |frames|
  {
    if frames == [] then (s, [])
    else
      var (t, e) := OnFrame(s, frames[0]);
      var (u, es) := Run(t, frames[1..]);
      (u, [e] + es)
  }

  /** The number of completion events. */
  function Completions(events: seq<Event>): nat
  {
    if events == [] then 0 else (if events[0].Completed? then 1 else 0) + Completions(events[1..])
  }

  /** Between two starts a render completes at most once, and never once the received
      count has reached the item count, since the count only grows one at a time and a
      completion zeroes both. */
  lemma {:induction false} AtMostOneCompletion(s: State, frames: seq<seq<byte>>)
    ensures Completions(Run(s, frames).1) <= if s.renderCount < s.itemCount then 1 else 0
    decreases |frames|
  {
    if frames != [] {
      var (t, e) := OnFrame(s, frames[0]);
      AtMostOneCompletion(t, frames[1..]);
      assert Run(s, frames).1 == [e] + Run(t, frames[1..]).1;
      assert ([e] + Run(t, frames[1..]).1)[1..] == Run(t, frames[1..]).1;
    }
  }

  /** As many items of the current render as are still missing complete it: exactly one
      completion, on the last of them, after which the session is reset. */
  lemma {:induction false} CompletesOnLastItem(s: State, frames: seq<seq<byte>>)
    requires s.renderCount < s.itemCount
    requires |frames| == s.itemCount - s.renderCount
    requires forall i :: 0 <= i < |frames| ==> IsItemOf(frames[i], s.renderID)
    ensures Completions(Run(s, frames).1) == 1
    ensures Run(s, frames).1[|frames| - 1].Completed?
    ensures Run(s, frames).0 == Reset(s.renderID)
    decreases |frames|
  {
    var (t, e) := OnFrame(s, frames[0]);
    assert Run(s, frames).1 == [e] + Run(t, frames[1..]).1;
    assert ([e] + Run(t, frames[1..]).1)[1..] == Run(t, frames[1..]).1;
    if |frames| > 1 {
      assert t.renderCount == s.renderCount + 1 && t.itemCount == s.itemCount && t.renderID == s.renderID;
      CompletesOnLastItem(t, frames[1..]);
    }
  }

  /** The frame of item `key` of render `renderID`, identified `<kind>_<renderID>_<key>`. */
  function ItemFrame(kind: seq<byte>, renderID: nat, key: seq<byte>, payload: seq<byte>): (data: seq<byte>)
    requires renderID <= MaxRenderID && |kind| + |key| < 0x1_0000 - 10
    ensures Decode(data) == Ok(Frame(Join([kind, Token(renderID), key], Underscore), payload))
  {
    TokenShort(renderID);
    JoinThree(kind, Token(renderID), key);
    DecodeEncode(Frame(Join([kind, Token(renderID), key], Underscore), payload));
    Encode(Frame(Join([kind, Token(renderID), key], Underscore), payload))
  }

  /** `MatchingFrame` for a three-part identifier. */
  lemma ItemStep(s: State, kind: seq<byte>, key: seq<byte>, payload: seq<byte>)
    requires s.renderID <= MaxRenderID && |kind| + |key| < 0x1_0000 - 10
    requires Underscore !in kind && Underscore !in key
    ensures var zip := s.zip[FileName(key) := payload];
      OnFrame(s, ItemFrame(kind, s.renderID, key, payload))
      == if s.renderCount + 1 == s.itemCount then (Reset(s.renderID), Completed(zip))
         else (State(s.renderCount + 1, s.itemCount, s.renderID, zip), Progress(s.renderCount + 1, s.itemCount))
  {
    TokenShort(s.renderID);
    JoinThree(kind, Token(s.renderID), key);
    assert [kind, Token(s.renderID), key] + [] == [kind, Token(s.renderID), key];
    MatchingFrame(s, kind, key, [], payload);
  }

  /** The first frame, then the rest. */
  lemma RunCons(s: State, frames: seq<seq<byte>>)
    requires frames != []
    ensures Run(s, frames)
         == (Run(OnFrame(s, frames[0]).0, frames[1..]).0, [OnFrame(s, frames[0]).1] + Run(OnFrame(s, frames[0]).0, frames[1..]).1)
  {
  }

  /** Two frames handled in turn. */
  lemma RunTwo(s: State, f1: seq<byte>, f2: seq<byte>)
    ensures Run(s, [f1, f2]) == (OnFrame(OnFrame(s, f1).0, f2).0, [OnFrame(s, f1).1, OnFrame(OnFrame(s, f1).0, f2).1])
  {
    var (t, e1) := OnFrame(s, f1);
    var (u, e2) := OnFrame(t, f2);
    RunCons(t, [f2]);
    assert [f2][1..] == [];
    assert Run(u, []) == (u, []);
    assert [e2] + [] == [e2];
    assert Run(t, [f2]) == (u, [e2]);
    RunCons(s, [f1, f2]);
    assert [f1, f2][1..] == [f2];
    assert [e1] + [e2] == [e1, e2];
  }

  /** A fresh session renders a script of two items (such as `"a\n;comment\n\nb"`, see
      `Script.ScriptExample`) and receives them under distinct keys: progress, then one
      completion carrying both entries. */
  lemma TwoItemRender(id0: nat, text: string, newID: nat, kind: seq<byte>, ka: seq<byte>, kb: seq<byte>, pa: seq<byte>, pb: seq<byte>)
    requires id0 <= MaxRenderID && newID <= MaxRenderID && ItemCount(text) == 2
    requires Underscore !in kind && Underscore !in ka && Underscore !in kb && ka != kb
    requires |kind| + |ka| < 0x1_0000 - 10 && |kind| + |kb| < 0x1_0000 - 10
    ensures var s := StartRender(Reset(id0), text, newID);
      var zip := map[FileName(ka) := pa, FileName(kb) := pb];
      Run(s, [ItemFrame(kind, newID, ka, pa), ItemFrame(kind, newID, kb, pb)])
        == (Reset(newID), [Progress(1, 2), Completed(zip)])
      && |zip| == 2
  {
    var s := StartRender(Reset(id0), text, newID);
    assert s == State(0, 2, newID, map[]);
    var fa := ItemFrame(kind, newID, ka, pa);
    var fb := ItemFrame(kind, newID, kb, pb);
    var t := State(1, 2, newID, map[FileName(ka) := pa]);
    assert OnFrame(s, fa) == (t, Progress(1, 2)) by { ItemStep(s, kind, ka, pa); }
    var zip := map[FileName(ka) := pa, FileName(kb) := pb];
    assert OnFrame(t, fb) == (Reset(newID), Completed(zip)) by { ItemStep(t, kind, kb, pb); }
    RunTwo(s, fa, fb);
    assert FileName(ka)[..|ka|] == ka;
  }

  /** The same key twice under one render: the later payload replaces the earlier, and the
      render still completes on the raw frame count. */
  lemma RepeatedKey(id0: nat, text: string, newID: nat, kind: seq<byte>, key: seq<byte>, p1: seq<byte>, p2: seq<byte>)
    requires id0 <= MaxRenderID && newID <= MaxRenderID && ItemCount(text) == 2
    requires Underscore !in kind && Underscore !in key
    requires |kind| + |key| < 0x1_0000 - 10
    ensures var s := StartRender(Reset(id0), text, newID);
      Run(s, [ItemFrame(kind, newID, key, p1), ItemFrame(kind, newID, key, p2)])
        == (Reset(newID), [Progress(1, 2), Completed(map[FileName(key) := p2])])
  {
    var s := StartRender(Reset(id0), text, newID);
    assert s == State(0, 2, newID, map[]);
    var f1 := ItemFrame(kind, newID, key, p1);
    var f2 := ItemFrame(kind, newID, key, p2);
    var t := State(1, 2, newID, map[FileName(key) := p1]);
    assert OnFrame(s, f1) == (t, Progress(1, 2)) by { ItemStep(s, kind, key, p1); }
    assert map[FileName(key) := p1][FileName(key) := p2] == map[FileName(key) := p2];
    assert OnFrame(t, f2) == (Reset(newID), Completed(map[FileName(key) := p2])) by { ItemStep(t, kind, key, p2); }
    RunTwo(s, f1, f2);
  }

  /** Starting a render does not clear the archive: the entries of an abandoned render stay. */
  lemma AbandonedEntriesCarryOver(s: State, text: string, newID: nat, name: seq<byte>)
    requires newID <= MaxRenderID && name in s.zip
    ensures name in StartRender(s, text, newID).zip && StartRender(s, text, newID).zip[name] == s.zip[name]
  {
  }

  /** A render of two items abandoned after one, followed by a render of one item,
      delivers both items in one archive. */
  lemma AbandonedRenderLeaks(id0: nat, id1: nat, id2: nat, text1: string, text2: string, kind: seq<byte>, ka: seq<byte>, kb: seq<byte>, pa: seq<byte>, pb: seq<byte>)
    requires id0 <= MaxRenderID && id1 <= MaxRenderID && id2 <= MaxRenderID
    requires ItemCount(text1) == 2 && ItemCount(text2) == 1
    requires Underscore !in kind && Underscore !in ka && Underscore !in kb
    requires |kind| + |ka| < 0x1_0000 - 10 && |kind| + |kb| < 0x1_0000 - 10
    ensures var s := StartRender(Reset(id0), text1, id1);
      var t := StartRender(OnFrame(s, ItemFrame(kind, id1, ka, pa)).0, text2, id2);
      OnFrame(t, ItemFrame(kind, id2, kb, pb)).1 == Completed(map[FileName(ka) := pa][FileName(kb) := pb])
  {
    var s := State(0, 2, id1, map[]);
    ItemStep(s, kind, ka, pa);
    var t := State(0, 1, id2, map[FileName(ka) := pa]);
    ItemStep(t, kind, kb, pb);
  }

  /** After a render completes its token stays in force: a late item of that render is
      archived into the fresh archive, against an item count of zero, instead of being played. */
  lemma StragglerAfterCompletion(renderID: nat, kind: seq<byte>, key: seq<byte>, payload: seq<byte>)
    requires renderID <= MaxRenderID && |kind| + |key| < 0x1_0000 - 10
    requires Underscore !in kind && Underscore !in key
    ensures OnFrame(Reset(renderID), ItemFrame(kind, renderID, key, payload))
         == (State(1, 0, renderID, map[FileName(key) := payload]), Progress(1, 0))
  {
    ItemStep(Reset(renderID), kind, key, payload);
  }

  lemma TokenShort(n: nat)
    requires n <= MaxRenderID
    ensures |Token(n)| <= 5
  {
    assert n < Pow(10, 5) by {
      assert Pow(10, 5) == 100000;
    }
    PaddedRadix(n, 10, 5);
  }

  lemma JoinThree(a: seq<byte>, b: seq<byte>, c: seq<byte>)
    ensures |Join([a, b, c], Underscore)| == |a| + |b| + |c| + 2
  {
    assert [a, b, c][1..] == [b, c];
    assert [b, c][1..] == [c];
    assert Join([c], Underscore) == c;
    assert Join([b, c], Underscore) == b + [Underscore] + c;
  }

  /** The request of a render lists its items under the render's token. */
  lemma RenderRequest(text: string, renderID: nat)
    ensures var r := BuildRequest(text, true, renderID);
      |r.request| == ItemCount(text) && Ascii(r.id) == Token(renderID)
  {
  }

  /** The module-level state of app.js and what its sinks received. */
  class Client {
    var renderCount: nat
    var itemCount: nat
    var renderID: nat
    var zip: Archive
    /** Payloads handed to `playAudioFromData`, oldest first. */
    var played: seq<seq<byte>>
    /** Archives handed to `saveAs(…, 'output.zip')`, oldest first. */
    var saved: seq<Archive>
    /** Messages handed to `ws.send`, oldest first. */
    var sent: seq<Request>

    /** The session variables as a value. */
    function Current(): State
      reads this
    {
      State(renderCount, itemCount, renderID, zip)
    }

    ghost predicate Valid()
      reads this
    {
      renderID <= MaxRenderID
    }

    /** The script's start: zero counters, an empty archive, a random token. */
    constructor (initialID: nat)
      requires initialID <= MaxRenderID
      ensures Valid() && Current() == Reset(initialID)
      ensures played == [] && saved == [] && sent == []
    {
      renderCount, itemCount, renderID, zip := 0, 0, initialID, map[];
      played, saved, sent := [], [], [];
    }

    /** `handleBinaryMessage(data)`. */
    method HandleBinaryMessage(data: seq<byte>)
      requires Valid()
      modifies this
      ensures Valid()
      ensures Current() == OnFrame(old(Current()), data).0
      ensures var e := OnFrame(old(Current()), data).1;
        played == old(played) + (if e.Played? then [e.audio] else [])
        && saved == old(saved) + (if e.Completed? then [e.archive] else [])
      ensures sent == old(sent)
    {
      if |data| < 2 {
        return;  // getUint16 throws a RangeError
      }
      var idLength := data[0] as int + data[1] as int * 0x100;
      var idEnd := if 2 + idLength <= |data| then 2 + idLength else |data|;
      var idBytes := data[2..idEnd];
      var audioData := data[idEnd..];
      var idParts := Split(idBytes, Underscore);
      if |idParts| < 3 {
        return;  // Invalid ID format
      }
      var isRendering := idParts[1] == Ascii(Decimal(renderID));
      if isRendering {
        renderCount := renderCount + 1;
        var filename := idParts[2] + WavSuffix;
        zip := zip[filename := audioData];
        if renderCount == itemCount {
          saved := saved + [zip];
          renderCount := 0;
          itemCount := 0;
          zip := map[];
        }
      } else {
        played := played + [audioData];
      }
    }

    /** `sendRequest(text, rendering)`, with `serverConnected` as `connected` and the
        value `Math.random` yields as `newID`. */
    method SendRequest(text: string, rendering: bool, connected: bool, newID: nat)
      requires Valid() && newID <= MaxRenderID
      modifies this
      ensures Valid()
      ensures Current() == if connected && rendering then StartRender(old(Current()), text, newID) else old(Current())
      ensures sent == old(sent) + if connected then [BuildRequest(text, rendering, renderID)] else []
      ensures connected && rendering ==>
        |sent[|sent| - 1].request| == itemCount && Ascii(sent[|sent| - 1].id) == Token(renderID)
      ensures connected ==> sent[|sent| - 1].request == RequestLines(text)
      ensures played == old(played) && saved == old(saved)
    {
      if !connected {
        return;  // alert('Not connected to the server.')
      }
      if rendering {
        itemCount := ItemCount(text);
        renderCount := 0;
        renderID := newID;
      }
      var requestId := if rendering then Some(Decimal(renderID)) else None;
      var lines := RequestLines(text);
      var id := if requestId.Some? && requestId.value != "" then requestId.value else QuickspeakId;
      var request := Request(id, UserTag, lines);
      assert request == BuildRequest(text, rendering, renderID);
      if rendering {
        RenderRequest(text, renderID);
      }
      sent := sent + [request];
    }
  }
}
