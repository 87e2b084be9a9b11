/**
 * tx_pkg_arbiter, for bursts from memory that answer reads: it cuts a burst into packets of PMTU_WORDS words and sends
 * the middle ones past the header stage.
 */
module PkgArbiter {
  import opened Powers
  import opened Psn
  import ReadResponse

  /** A word of a stream. */
  datatype Word = Word(data: nat, last: bool)

  datatype Route = AethPath | RawPath

  datatype ArbState = IDLE | FWD_MEM_AETH | FWD_MEM_RAW

  datatype Sent = Sent(word: Word, route: Route)

  /** The last word of a burst, and no other, says so. */
  predicate IsBurst(ws: seq<Word>)
  {
    0 < |ws| < 0x2000_0000 && forall k :: 0 <= k < |ws| ==> ws[k].last == (k == |ws| - 1)
  }

  /** Words that are left of a burst of n when the packet of word j starts. */
  function LeftAt(n: nat, j: nat, pmtuWords: nat): int
    requires 0 < pmtuWords
  {
    n - j / pmtuWords * pmtuWords
  }

  /** The first packet and the last one get a header, those between are middle packets. */
  function RouteOf(n: nat, j: nat, pmtuWords: nat): Route
    requires 0 < pmtuWords
  {
    if j / pmtuWords == 0 || LeftAt(n, j, pmtuWords) <= pmtuWords then AethPath else RawPath
  }

  /** Word j of a burst as it is sent: the last word of every packet says so. */
  function SentWord(ws: seq<Word>, j: nat, pmtuWords: nat): Sent
    requires 0 < pmtuWords && j < |ws|
  {
    Sent(Word(ws[j].data, j == |ws| - 1 || j % pmtuWords == pmtuWords - 1), RouteOf(|ws|, j, pmtuWords))
  }

  function SentPart(ws: seq<Word>, j: nat, pmtuWords: nat): (r: seq<Sent>)
    requires 0 < pmtuWords && j <= |ws|
  {
    seq(j, k requires 0 <= k < j => SentWord(ws, k, pmtuWords))
  }

  function SentAll(bursts: seq<seq<Word>>, pmtuWords: nat): seq<Sent>
    requires 0 < pmtuWords
  {
    if bursts == [] then []
    else
      var n := |bursts| - 1;
      SentAll(bursts[..n], pmtuWords) + SentPart(bursts[n], |bursts[n]|, pmtuWords)
  }

  lemma SentAllNext(bursts: seq<seq<Word>>, b: seq<Word>, pmtuWords: nat)
    requires 0 < pmtuWords
    ensures SentAll(bursts + [b], pmtuWords) == SentAll(bursts, pmtuWords) + SentPart(b, |b|, pmtuWords)
  {
    assert (bursts + [b])[..|bursts|] == bursts;
  }

  function Words(bursts: seq<seq<Word>>): seq<Word>
  {
    if bursts == [] then [] else bursts[0] + Words(bursts[1..])
  }

  lemma {:induction false} WordsNext(bursts: seq<seq<Word>>, b: seq<Word>)
    ensures Words(bursts + [b]) == Words(bursts) + b
  {
    if bursts == [] {
      assert [] + [b] == [b] && [b][1..] == [] && b + [] == b;
    } else {
      WordsNext(bursts[1..], b);
      assert (bursts + [b])[1..] == bursts[1..] + [b];
    }
  }

  function Lengths(bursts: seq<seq<Word>>): (r: seq<nat>)
    ensures |r| == |bursts|
  {
    seq(|bursts|, k requires 0 <= k < |bursts| => |bursts[k]|)
  }

  function OnRoute(sent: seq<Sent>, route: Route): seq<Word>
  {
    if sent == [] then []
    else
      var n := |sent| - 1;
      OnRoute(sent[..n], route) + (if sent[n].route == route then [sent[n].word] else [])
  }

  lemma OnRouteNext(sent: seq<Sent>, s: Sent, route: Route)
    ensures OnRoute(sent + [s], route) == OnRoute(sent, route) + (if s.route == route then [s.word] else [])
  {
    assert (sent + [s])[..|sent|] == sent;
  }

  /** Where the next word stands in its packet, and how many words the packets from this one on hold. */
  lemma NextPlace(n: nat, j: nat, pmtuWords: nat)
    requires 0 < pmtuWords && j < n
    ensures if j % pmtuWords == pmtuWords - 1
            then (j + 1) % pmtuWords == 0 && LeftAt(n, j + 1, pmtuWords) == LeftAt(n, j, pmtuWords) - pmtuWords
                 && (j + 1) / pmtuWords > 0
            else (j + 1) % pmtuWords == j % pmtuWords + 1 && (j + 1) / pmtuWords == j / pmtuWords
                 && LeftAt(n, j + 1, pmtuWords) == LeftAt(n, j, pmtuWords)
    ensures j % pmtuWords < LeftAt(n, j, pmtuWords) <= n
  {
    NextQuotient(j, pmtuWords, j / pmtuWords, j % pmtuWords);
  }

  lemma NextQuotient(j: nat, d: nat, q: nat, r: nat)
    requires 0 < d && q == j / d && r == j % d
    ensures q * d <= j && j - q * d == r < d
    ensures if r == d - 1 then (j + 1) / d == q + 1 && (j + 1) % d == 0 && (q + 1) * d == q * d + d
            else (j + 1) / d == q && (j + 1) % d == r + 1
  {
    assert j == d * q + r;
    Commuted(d, q);
    if r == d - 1 {
      Commuted(d, q + 1);
      OneMore(q, d);
      DivUnique(j + 1, d, q + 1, 0);
    } else {
      DivUnique(j + 1, d, q, r + 1);
    }
  }

  lemma Commuted(a: nat, b: nat)
    ensures a * b == b * a
  {
  }

  /** The last word is in a packet that gets a header. */
  lemma LastPlace(n: nat, j: nat, pmtuWords: nat)
    requires 0 < pmtuWords && j < n
    ensures j == n - 1 ==> RouteOf(n, j, pmtuWords) == AethPath && LeftAt(n, j, pmtuWords) <= pmtuWords
  {
    var q, r := j / pmtuWords, j % pmtuWords;
    assert j == pmtuWords * q + r && q * pmtuWords == pmtuWords * q;
  }

  lemma OneBurstMore(here: seq<Word>, late: seq<Word>, rest: seq<Word>, announced: seq<seq<Word>>, burst: seq<Word>)
    requires here + late == rest + Words(announced)
    ensures here + (late + burst) == rest + Words(announced + [burst])
    ensures Lengths(announced + [burst]) == Lengths(announced) + [|burst|]
  {
    WordsNext(announced, burst);
    assert here + (late + burst) == (here + late) + burst;
    assert rest + (Words(announced) + burst) == (rest + Words(announced)) + burst;
  }

  class Arbiter {
    const pmtuWords: nat
    var state: ArbState
    var wordCounter: nat
    var words: nat
    // FIFOs: announced bursts, words from memory, and the two ways out
    var pkgInfoIn: seq<nat>
    var memReadData: seq<Word>
    var remoteReadData: seq<Word>
    var rawPay: seq<Word>
    ghost var done: seq<seq<Word>>
    ghost var current: seq<Word>
    ghost var at: nat
    ghost var announced: seq<seq<Word>>
    ghost var late: seq<Word>
    ghost var sent: seq<Sent>

    /** Words that have arrived, and those that are late, are the rest of this burst and all of the next ones. */
    ghost predicate Input()
      reads this
    {
      && pkgInfoIn == Lengths(announced)
      && (forall k :: 0 <= k < |announced| ==> IsBurst(announced[k]))
      && at <= |current|
      && memReadData + late == current[at..] + Words(announced)
    }

    ghost predicate Output()
      requires 0 < pmtuWords && at <= |current|
      reads this`sent, this`done, this`current, this`at, this`remoteReadData, this`rawPay
    {
      && sent == SentAll(done, pmtuWords) + SentPart(current, at, pmtuWords)
      && remoteReadData == OnRoute(sent, AethPath) && rawPay == OnRoute(sent, RawPath)
    }

    ghost predicate Valid()
      reads this
    {
      && 0 < pmtuWords < 256 && Input() && Output()
      && match state
         case IDLE => current == []
         case _ =>
           && IsBurst(current) && at < |current|
           && wordCounter == at % pmtuWords && words == LeftAt(|current|, at, pmtuWords)
           && RouteOf(|current|, at, pmtuWords) == if state.FWD_MEM_AETH? then AethPath else RawPath
    }

    constructor (pmtuWords: nat)
      requires 0 < pmtuWords < 256
      ensures Valid() && state.IDLE? && this.pmtuWords == pmtuWords && announced == [] && done == [] && sent == []
    {
      this.pmtuWords := pmtuWords;
      state, wordCounter, words := IDLE, 0, 0;
      pkgInfoIn, memReadData, remoteReadData, rawPay := [], [], [], [];
      done, current, at, announced, late, sent := [], [], 0, [], [], [];
    }

    /** All bursts, in the order of their announcement. */
    ghost function Bursts(): seq<seq<Word>>
      reads this`done, this`current, this`announced
    {
      done + (if current == [] then [] else [current]) + announced
    }

    /** A burst is announced; its words will follow those of the bursts before it. */
    method Announce(n: nat, ghost burst: seq<Word>)
      requires Valid() && IsBurst(burst) && n == |burst|
      modifies this`pkgInfoIn, this`announced, this`late
      ensures Valid() && Bursts() == old(Bursts()) + [burst]
    {
      hide Output, IsBurst, LeftAt, RouteOf, Words, Lengths;
      OneBurstMore(memReadData, late, current[at..], announced, burst);
      assert Bursts() + [burst] == done + (if current == [] then [] else [current]) + (announced + [burst]);
      pkgInfoIn := pkgInfoIn + [n];
      announced, late := announced + [burst], late + burst;
    }

    /** The next word comes from memory, at any time. */
    method WordArrives(w: Word)
      requires Valid() && late != [] && w == late[0]
      modifies this`memReadData, this`late
      ensures Valid() && Bursts() == old(Bursts())
    {
      hide Output, IsBurst, Words, LeftAt, RouteOf;
      assert memReadData + late == memReadData + [w] + late[1..];
      memReadData := memReadData + [w];
      late := late[1..];
    }

    /** One step: it takes the next burst, or sends a word on. */
    method Step()
      requires Valid()
      modifies this
      ensures Valid() && Bursts() == old(Bursts())
      ensures if old(state).IDLE? then
                memReadData == old(memReadData) && late == old(late)
                && (if old(pkgInfoIn) != [] then !state.IDLE? && pkgInfoIn == old(pkgInfoIn)[1..] else state.IDLE?)
              else
                pkgInfoIn == old(pkgInfoIn) && late == old(late)
                && memReadData == (if old(memReadData) != [] then old(memReadData)[1..] else [])
    {
      hide Valid;
      if state.IDLE? {
        if pkgInfoIn != [] {
          TakeInfo();
        }
      } else if memReadData != [] {
        ForwardWord();
      }
    }

    /** Once all words have arrived, every announced burst is sent to its end. */
    method Settle()
      requires Valid() && late == []
      modifies this
      ensures Valid() && sent == SentAll(old(Bursts()), pmtuWords)
      ensures remoteReadData == OnRoute(sent, AethPath) && rawPay == OnRoute(sent, RawPath) && memReadData == []
    {
      hide SentAll, OnRoute, IsBurst, LeftAt, RouteOf;
      while !state.IDLE? || pkgInfoIn != []
        invariant Valid() && late == [] && Bursts() == old(Bursts())
        decreases |pkgInfoIn|, |memReadData|
      {
        assert !state.IDLE? ==> |memReadData + late| > 0;
        Step();
      }
      NothingLeft();
    }

    lemma NothingLeft()
      requires Valid() && state.IDLE? && pkgInfoIn == [] && late == []
      ensures Bursts() == done && sent == SentAll(done, pmtuWords) && memReadData == []
    {
      assert announced == [] && Words(announced) == [];
      assert SentPart(current, at, pmtuWords) == [];
      assert SentAll(done, pmtuWords) + [] == SentAll(done, pmtuWords);
      assert memReadData + late == memReadData;
    }

    method TakeInfo()
      requires Valid() && state.IDLE? && pkgInfoIn != []
      modifies this
      ensures Valid() && Bursts() == old(Bursts())
      ensures !state.IDLE? && pkgInfoIn == old(pkgInfoIn)[1..] && memReadData == old(memReadData) && late == old(late)
    {
      hide SentAll, OnRoute, Words, Lengths, SentPart, IsBurst, LeftAt, RouteOf;
      FirstWord(pmtuWords, |announced[0]|);
      NextBurst(announced, pmtuWords);
      words, pkgInfoIn := pkgInfoIn[0], pkgInfoIn[1..];
      wordCounter := 0;
      state := FWD_MEM_AETH;
      ghost var all := announced;
      current, at, announced := all[0], 0, all[1..];
      assert current[0..] == current;
      assert Bursts() == done + all;
    }

    lemma NextBurst(bursts: seq<seq<Word>>, pmtuWords: nat)
      requires 0 < pmtuWords && bursts != [] && forall k :: 0 <= k < |bursts| ==> IsBurst(bursts[k])
      ensures IsBurst(bursts[0]) && bursts[0] != [] && Words(bursts) == bursts[0] + Words(bursts[1..])
      ensures Lengths(bursts) != [] && Lengths(bursts)[0] == |bursts[0]| && Lengths(bursts)[1..] == Lengths(bursts[1..])
      ensures SentPart([], 0, pmtuWords) == [] == SentPart(bursts[0], 0, pmtuWords)
    {
    }

    lemma FirstWord(pmtuWords: nat, n: nat)
      requires 0 < pmtuWords
      ensures 0 % pmtuWords == 0 && LeftAt(n, 0, pmtuWords) == n && RouteOf(n, 0, pmtuWords) == AethPath
    {
    }

    /** The word at hand, sent on to where the state says. */
    method SendOn(w: Word) returns (route: Route)
      requires !state.IDLE? && wordCounter < pmtuWords < 256
      modifies this`state, this`wordCounter, this`words, this`remoteReadData, this`rawPay
      ensures var end := old(wordCounter) + 1 == pmtuWords;
              && wordCounter == (if end then 0 else old(wordCounter) + 1)
              && words == (if end then (old(words) - pmtuWords) % 0x2000_0000 else old(words))
              && state == (if end && route.AethPath? && words > pmtuWords then FWD_MEM_RAW
                           else if end && route.RawPath? && words <= pmtuWords then FWD_MEM_AETH
                           else if w.last then IDLE
                           else old(state))
              && var out := Word(w.data, w.last || end);
              && remoteReadData == old(remoteReadData) + (if route.AethPath? then [out] else [])
              && rawPay == old(rawPay) + (if route.RawPath? then [out] else [])
      ensures route == if old(state).FWD_MEM_AETH? then AethPath else RawPath
    {
      var currWord := w;
      route := if state.FWD_MEM_AETH? then AethPath else RawPath;
      wordCounter := (wordCounter + 1) % 256;
      if currWord.last {
        state := IDLE;
      }
      if wordCounter == pmtuWords {
        currWord := currWord.(last := true);
        wordCounter := 0;
        words := (words - pmtuWords) % 0x2000_0000;
        if route.AethPath? && words > pmtuWords {
          state := FWD_MEM_RAW;
        }
        if route.RawPath? && words <= pmtuWords {
          state := FWD_MEM_AETH;
        }
      }
      if route.AethPath? {
        remoteReadData := remoteReadData + [currWord];
      } else {
        rawPay := rawPay + [currWord];
      }
    }

    method ForwardWord()
      requires Valid() && !state.IDLE? && memReadData != []
      modifies this
      ensures Valid() && Bursts() == old(Bursts())
      ensures memReadData == old(memReadData)[1..] && pkgInfoIn == old(pkgInfoIn) && late == old(late)
    {
      hide SentAll, OnRoute, Words, LeftAt;
      NextPlace(|current|, at, pmtuWords);
      LastPlace(|current|, at, pmtuWords);
      TakeWord();
      var currWord := memReadData[0];
      memReadData := memReadData[1..];
      ghost var s := SentWord(current, at, pmtuWords);
      var route := SendOn(currWord);
      WordSent(s);
    }

    lemma TakeWord()
      requires 0 < pmtuWords && Input() && at < |current| && memReadData != []
      ensures memReadData[0] == current[at]
      ensures memReadData[1..] + late == current[at + 1..] + Words(announced)
    {
      hide Words;
      var all := memReadData + late;
      assert all[0] == memReadData[0] && all[0] == current[at] && all[1..] == memReadData[1..] + late;
      assert all[1..] == current[at..][1..] + Words(announced) && current[at..][1..] == current[at + 1..];
    }

    /** The ghost state follows. */
    ghost method WordSent(s: Sent)
      requires 0 < pmtuWords && at < |current| && s == SentWord(current, at, pmtuWords)
      requires sent == SentAll(done, pmtuWords) + SentPart(current, at, pmtuWords)
      requires remoteReadData == OnRoute(sent, AethPath) + (if s.route.AethPath? then [s.word] else [])
      requires rawPay == OnRoute(sent, RawPath) + (if s.route.RawPath? then [s.word] else [])
      modifies this`sent, this`at, this`done, this`current
      ensures at <= |current| && Output() && Bursts() == old(Bursts())
      ensures if old(at) + 1 == |old(current)| then current == [] && at == 0
              else current == old(current) && at == old(at) + 1
    {
      hide SentAll, OnRoute;
      OnRouteNext(sent, s, AethPath);
      OnRouteNext(sent, s, RawPath);
      assert SentPart(current, at + 1, pmtuWords) == SentPart(current, at, pmtuWords) + [s];
      sent := sent + [s];
      at := at + 1;
      if at == |current| {
        SentAllNext(done, current, pmtuWords);
        done, current, at := done + [current], [], 0;
      }
    }
  }

  // ---------------------------------------------------------------- the same packets as the events

  function Ceil(n: nat, d: nat): nat
    requires 0 < d
  {
    (n + (d - 1)) / d
  }

  lemma CeilIs(n: nat, d: nat)
    requires 0 < d && 0 < n
    ensures Ceil(n, d) == (n - 1) / d + 1
  {
    var m: nat := n - 1;
    var q, r := m / d, m % d;
    assert m == d * q + r;
    assert d * (q + 1) == d * q + d;
    DivUnique(m + d, d, q + 1, r);
  }

  /** The packet that word j is in. */
  function PacketOf(j: nat, pmtuWords: nat): nat
    requires 0 < pmtuWords
  {
    j / pmtuWords
  }

  function PacketBytes(wordBytes: nat, pmtuWords: nat): (r: nat)
    requires 0 < wordBytes && 0 < pmtuWords
    ensures r > 0
  {
    wordBytes * pmtuWords
  }

  /** Counting words and then packets of words is counting packets of bytes. */
  lemma CeilCeil(length: nat, wordBytes: nat, pmtuWords: nat)
    requires 0 < length && 0 < wordBytes && 0 < pmtuWords
    ensures Ceil(Ceil(length, wordBytes), pmtuWords) == Ceil(length, PacketBytes(wordBytes, pmtuWords))
  {
    DivMul(length - 1, wordBytes, pmtuWords);
    CeilIs(length, wordBytes);
    CeilIs(Ceil(length, wordBytes), pmtuWords);
    CeilIs(length, wordBytes * pmtuWords);
  }

  lemma LastPacket(n: nat, j: nat, pmtuWords: nat)
    requires 0 < pmtuWords && j < n
    ensures j / pmtuWords < Ceil(n, pmtuWords)
    ensures LeftAt(n, j, pmtuWords) <= pmtuWords <==> j / pmtuWords == Ceil(n, pmtuWords) - 1
  {
    CeilIs(n, pmtuWords);
    var m: nat := n - 1;
    var p, s, q, r := m / pmtuWords, m % pmtuWords, j / pmtuWords, j % pmtuWords;
    assert m == pmtuWords * p + s && j == pmtuWords * q + r && q * pmtuWords == pmtuWords * q;
    assert pmtuWords * (q + 1) == pmtuWords * q + pmtuWords && pmtuWords * (p + 1) == pmtuWords * p + pmtuWords;
    if q < p {
      MulMonotone(pmtuWords, q + 1, p);
    } else if q > p {
      MulMonotone(pmtuWords, p + 1, q);
    }
  }

  lemma RouteIs(n: nat, j: nat, pmtuWords: nat)
    requires 0 < pmtuWords && j < n
    ensures PacketOf(j, pmtuWords) < Ceil(n, pmtuWords)
    ensures RouteOf(n, j, pmtuWords).RawPath? <==>
            ReadResponse.OpOf(PacketOf(j, pmtuWords), Ceil(n, pmtuWords)).ReadRespMiddle?
  {
    hide Ceil, LeftAt;
    LastPacket(n, j, pmtuWords);
  }

  /**
   * Word j of a burst as it is sent: its data, the end of a packet behind every pmtuWords words and behind the last
   * one, and the raw route exactly if its packet is neither the first nor the last.
   */
  lemma CutWord(ws: seq<Word>, j: nat, pmtuWords: nat)
    requires 0 < pmtuWords && j < |ws|
    ensures var s := SentWord(ws, j, pmtuWords);
            && s.word.data == ws[j].data
            && (s.word.last <==> j == |ws| - 1 || (j + 1) / pmtuWords != j / pmtuWords)
            && (s.route.RawPath? <==> 0 < j / pmtuWords < (|ws| - 1) / pmtuWords)
  {
    var n := |ws|;
    NextQuotient(j, pmtuWords, j / pmtuWords, j % pmtuWords);
    LastPacket(n, j, pmtuWords);
    CeilIs(n, pmtuWords);
    hide Ceil, LeftAt;
  }

  /**
   * The burst that answers a read is cut into as many packets as there are events, and word j goes the way that the
   * opcode of its event asks for: middle packets raw, the others to the header stage. wordBytes is the width of the
   * stream in bytes.
   */
  lemma CutsMatchEvents(r: ReadResponse.Request, wordBytes: nat, pmtuWords: nat, j: nat)
    requires 0 < wordBytes && 0 < pmtuWords && 0 < r.dma_length && j < Ceil(r.dma_length, wordBytes)
    ensures var pmtu := PacketBytes(wordBytes, pmtuWords);
            var n, evs := Ceil(r.dma_length, wordBytes), ReadResponse.Responses(r, pmtu);
            && PacketOf(j, pmtuWords) < |evs| == Ceil(n, pmtuWords)
            && (RouteOf(n, j, pmtuWords).RawPath? <==> evs[PacketOf(j, pmtuWords)].op.ReadRespMiddle?)
  {
    hide Ceil, RouteOf, LeftAt, PacketBytes, PacketOf;
    var pmtu := PacketBytes(wordBytes, pmtuWords);
    CeilCeil(r.dma_length, wordBytes, pmtuWords);
    ReadResponse.ResponsesAre(r, pmtu);
    CeilMeans(r.dma_length, pmtu);
    hide ReadResponse.Responses, ReadResponse.Numbered, ReadResponse.OpOf;
    RouteIs(Ceil(r.dma_length, wordBytes), j, pmtuWords);
  }

  lemma CeilMeans(n: nat, d: nat)
    requires 0 < d
    ensures (n + (d - 1)) / d == Ceil(n, d)
  {
  }
}
