/**
  The pure part of `load_obj_file`: an object image is a big-endian origin
  followed by big-endian words that are stored at consecutive addresses from
  the origin on. Reading the file itself is not part of this model.
*/
module Loader {

  import opened Words
  import Memories

  /** The big-endian words of a byte string, pair by pair; a trailing odd byte is dropped. */
  function ImageWords(bytes: seq<Byte>): (ws: seq<Word>)
    ensures |ws| == |bytes| / 2
    decreases |bytes|
  {
    if |bytes| < 2 then [] else [FromBigEndian(bytes[0], bytes[1])] + ImageWords(bytes[2..])
  }

  /** Word `k` of a byte string is its bytes `2k` and `2k + 1`, big-endian. */
  lemma {:induction false} ImageWordsAt(bytes: seq<Byte>, k: nat)
    requires k < |bytes| / 2
    ensures ImageWords(bytes)[k] == FromBigEndian(bytes[2 * k], bytes[2 * k + 1])
    decreases k
  {
    if k > 0 {
      ImageWordsAt(bytes[2..], k - 1);
      assert bytes[2..][2 * (k - 1)] == bytes[2 * k] && bytes[2..][2 * (k - 1) + 1] == bytes[2 * k + 1];
    }
  }

  /** The big-endian bytes of a word string: the inverse direction of `ImageWords`. */
  function ImageBytes(ws: seq<Word>): (bytes: seq<Byte>)
    ensures |bytes| == 2 * |ws|
    decreases |ws|
  {
    if |ws| == 0 then [] else [HighByte(ws[0]), LowByte(ws[0])] + ImageBytes(ws[1..])
  }

  /** Bytes `2k` and `2k + 1` of a word string are the high and low byte of word `k`. */
  lemma {:induction false} ImageBytesAt(ws: seq<Word>, k: nat)
    requires k < |ws|
    ensures ImageBytes(ws)[2 * k] == HighByte(ws[k]) && ImageBytes(ws)[2 * k + 1] == LowByte(ws[k])
    decreases k
  {
    if k > 0 {
      ImageBytesAt(ws[1..], k - 1);
    }
  }

  /** Decoding a pair followed by more bytes: its word comes first. */
  lemma ImageWordsCons(hi: Byte, lo: Byte, tail: seq<Byte>)
    ensures ImageWords([hi, lo] + tail) == [FromBigEndian(hi, lo)] + ImageWords(tail)
  {
    assert ([hi, lo] + tail)[2..] == tail;
  }

  /** Encoding words as bytes and decoding them again gives the same words. */
  lemma {:induction false} WordsRoundTrip(ws: seq<Word>)
    ensures ImageWords(ImageBytes(ws)) == ws
    decreases |ws|
  {
    if |ws| > 0 {
      var w := ws[0];
      ImageWordsCons(HighByte(w), LowByte(w), ImageBytes(ws[1..]));
      BigEndianSplit(w);
      WordsRoundTrip(ws[1..]);
      assert ws == [w] + ws[1..];
    }
  }

  /** Encoding a word followed by more words: its two bytes come first. */
  lemma ImageBytesCons(w: Word, tail: seq<Word>)
    ensures ImageBytes([w] + tail) == [HighByte(w), LowByte(w)] + ImageBytes(tail)
  {
    assert ([w] + tail)[1..] == tail;
  }

  /** The even-length prefix of a byte string, split after its first pair. */
  lemma EvenPrefixCons(bytes: seq<Byte>)
    requires |bytes| >= 2
    ensures bytes[..|bytes| - |bytes| % 2] == [bytes[0], bytes[1]] + bytes[2..][..(|bytes| - 2) - (|bytes| - 2) % 2]
  {
    assert (|bytes| - 2) - (|bytes| - 2) % 2 + 2 == |bytes| - |bytes| % 2;
  }

  /** One step of `BytesRoundTrip`: the first pair goes through and the rest is the induction hypothesis. */
  lemma BytesRoundTripCons(bytes: seq<Byte>)
    requires |bytes| >= 2
    requires ImageBytes(ImageWords(bytes[2..])) == bytes[2..][..(|bytes| - 2) - (|bytes| - 2) % 2]
    ensures ImageBytes(ImageWords(bytes)) == bytes[..|bytes| - |bytes| % 2]
  {
    var w := FromBigEndian(bytes[0], bytes[1]);
    var tail := ImageWords(bytes[2..]);
    assert ImageWords(bytes) == [w] + tail;
    ImageBytesCons(w, tail);
    EvenPrefixCons(bytes);
  }

  /** Decoding bytes as words and encoding them again loses only a trailing odd byte. */
  lemma {:induction false} BytesRoundTrip(bytes: seq<Byte>)
    ensures ImageBytes(ImageWords(bytes)) == bytes[..|bytes| - |bytes| % 2]
    decreases |bytes|
  {
    if |bytes| >= 2 {
      BytesRoundTrip(bytes[2..]);
      BytesRoundTripCons(bytes);
    } else {
      var ws := ImageWords(bytes);
      assert ws == [];
      assert ImageBytes(ws) == [];
      assert bytes[..|bytes| - |bytes| % 2] == [];
    }
  }

  /** The origin of an image: its first two bytes big-endian, or 0 when it has fewer. */
  function Origin(buffer: seq<Byte>): (origin: Word)
    ensures |buffer| >= 2 ==> HighByte(origin) == buffer[0] && LowByte(origin) == buffer[1]
    ensures |buffer| < 2 ==> origin == 0
  {
    if |buffer| >= 2 then FromBigEndian(buffer[0], buffer[1]) else 0
  }

  /** The program words of an image: every complete pair after the origin, a trailing odd byte dropped. */
  function Program(buffer: seq<Byte>): (ws: seq<Word>)
    ensures |buffer| >= 2 ==> |ws| == (|buffer| - 2) / 2
    ensures |buffer| < 2 ==> ws == []
  {
    if |buffer| >= 2 then ImageWords(buffer[2..]) else []
  }

  /** Storing `ws` at `a`, `a + 1`, ... (wrapping), in order; storing nothing changes nothing. */
  function StoreWords(mem: Memories.Memory, a: Word, ws: seq<Word>): (mem': Memories.Memory)
    ensures |ws| == 0 ==> mem' == mem
    decreases |ws|
  {
    if |ws| == 0 then mem
    else StoreWords(Memories.Write(mem, a, ws[0]), a + 1, ws[1..])
  }

  /** The last word stored is always found at its address, whether or not the addresses wrap. */
  lemma {:induction false} StoreWordsLast(mem: Memories.Memory, a: Word, ws: seq<Word>)
    requires |ws| > 0
    ensures Memories.Read(StoreWords(mem, a, ws), Next(a, |ws| - 1)) == ws[|ws| - 1]
    decreases |ws|
  {
    if |ws| > 1 {
      StoreWordsLast(Memories.Write(mem, a, ws[0]), a + 1, ws[1..]);
    }
  }

  /** Storing one more word is storing the rest and then writing that word at its address. */
  lemma {:induction false} StoreWordsSnoc(mem: Memories.Memory, a: Word, ws: seq<Word>, w: Word)
    ensures StoreWords(mem, a, ws + [w]) == Memories.Write(StoreWords(mem, a, ws), Next(a, |ws|), w)
    decreases |ws|
  {
    if |ws| > 0 {
      assert (ws + [w])[1..] == ws[1..] + [w];
      StoreWordsSnoc(Memories.Write(mem, a, ws[0]), a + 1, ws[1..], w);
    }
  }

  /** None of the `n` addresses from `a` on (wrapping) is `b`. */
  predicate Untouched(a: Word, n: nat, b: Word) {
    forall k :: 0 <= k < n ==> Next(a, k) != b
  }

  /** No address after the `k`-th of the `n` addresses from `a` on (wrapping) comes back to it. */
  predicate LastVisit(a: Word, n: nat, k: nat) {
    forall j :: k < j < n ==> Next(a, j) != Next(a, k)
  }

  /** None of the first `n - 1` increments from `a` passes 0xFFFF, so the `n` addresses do not wrap round. */
  predicate NoWrap(a: Word, n: nat) {
    forall i :: 0 <= i < n - 1 ==> Next(a, i) != 0xFFFF
  }

  /** Without wrap-around the addresses from `a` on strictly increase. */
  lemma {:induction false} NextIncreasing(a: Word, k: nat, j: nat)
    requires k < j
    requires NoWrap(a, j + 1)
    ensures Next(a, k) < Next(a, j)
    decreases j - k
  {
    NextStep(a, j - 1);
    assert Next(a, j - 1) != 0xFFFF;
    if k < j - 1 {
      NextIncreasing(a, k, j - 1);
    }
  }

  /** Without wrap-around no address is visited twice. */
  lemma NoWrapLastVisit(a: Word, n: nat, k: nat)
    requires NoWrap(a, n)
    ensures LastVisit(a, n, k)
  {
    forall j | k < j < n
      ensures Next(a, j) != Next(a, k)
    {
      NextIncreasing(a, k, j);
    }
  }

  /** An address none of the words is stored at keeps its old contents. */
  lemma {:induction false} StoreWordsFrame(mem: Memories.Memory, a: Word, ws: seq<Word>, b: Word)
    requires Untouched(a, |ws|, b)
    ensures Memories.Read(StoreWords(mem, a, ws), b) == Memories.Read(mem, b)
    decreases |ws|
  {
    if |ws| > 0 {
      assert Next(a, 0) != b;
      var a1 := a + 1;
      forall k | 0 <= k < |ws| - 1
        ensures Next(a1, k) != b
      {
        assert Next(a, k + 1) != b;
      }
      StoreWordsFrame(Memories.Write(mem, a, ws[0]), a + 1, ws[1..], b);
    }
  }

  /** Word `k` is found at its address unless a later word was stored at the same address. */
  lemma {:induction false} StoreWordsPlaces(mem: Memories.Memory, a: Word, ws: seq<Word>, k: nat)
    requires k < |ws|
    requires LastVisit(a, |ws|, k)
    ensures Memories.Read(StoreWords(mem, a, ws), Next(a, k)) == ws[k]
    decreases |ws|
  {
    var m1 := Memories.Write(mem, a, ws[0]);
    var a1 := a + 1;
    if k == 0 {
      forall j | 0 <= j < |ws| - 1
        ensures Next(a1, j) != a
      {
        assert Next(a, j + 1) != Next(a, 0);
      }
      StoreWordsFrame(m1, a + 1, ws[1..], a);
    } else {
      forall j | k - 1 < j < |ws| - 1
        ensures Next(a1, j) != Next(a1, k - 1)
      {
        assert Next(a, j + 1) != Next(a, k);
      }
      StoreWordsPlaces(m1, a + 1, ws[1..], k - 1);
    }
  }

  /** Loading one more complete pair of an image writes its word at the next address. */
  lemma LoadStep(mem: Memories.Memory, buffer: seq<Byte>, n: nat)
    requires 3 + 2 * n < |buffer|
    ensures n < |Program(buffer)|
    ensures StoreWords(mem, Origin(buffer), Program(buffer)[..n + 1]) ==
      Memories.Write(StoreWords(mem, Origin(buffer), Program(buffer)[..n]), Next(Origin(buffer), n),
                     FromBigEndian(buffer[2 + 2 * n], buffer[3 + 2 * n]))
  {
    var words := Program(buffer);
    ImageWordsAt(buffer[2..], n);
    assert buffer[2..][2 * n] == buffer[2 + 2 * n] && buffer[2..][2 * n + 1] == buffer[3 + 2 * n];
    assert words[..n] + [words[n]] == words[..n + 1];
    StoreWordsSnoc(mem, Origin(buffer), words[..n], words[n]);
  }

  /** Without wrap-around, word `k` is found at `a + k` for every `k`. */
  lemma StoreWordsNoWrap(mem: Memories.Memory, a: Word, ws: seq<Word>)
    requires NoWrap(a, |ws|)
    ensures forall k :: 0 <= k < |ws| ==> Memories.Read(StoreWords(mem, a, ws), Next(a, k)) == ws[k]
  {
    forall k | 0 <= k < |ws|
      ensures Memories.Read(StoreWords(mem, a, ws), Next(a, k)) == ws[k]
    {
      NoWrapLastVisit(a, |ws|, k);
      StoreWordsPlaces(mem, a, ws, k);
    }
  }

  /** The program of an image: word `k` is bytes `2 + 2k` and `3 + 2k` big-endian, and only complete pairs count. */
  lemma ProgramWords(buffer: seq<Byte>)
    ensures |buffer| >= 2 ==> |Program(buffer)| == (|buffer| - 2) / 2
    ensures |buffer| < 2 ==> Program(buffer) == []
    ensures forall k :: 0 <= k < |Program(buffer)| ==>
      Program(buffer)[k] == FromBigEndian(buffer[2 + 2 * k], buffer[3 + 2 * k])
  {
    if |buffer| >= 2 {
      var rest := buffer[2..];
      forall k | 0 <= k < |Program(buffer)|
        ensures Program(buffer)[k] == FromBigEndian(buffer[2 + 2 * k], buffer[3 + 2 * k])
      {
        ImageWordsAt(rest, k);
        assert rest[2 * k] == buffer[2 + 2 * k] && rest[2 * k + 1] == buffer[3 + 2 * k];
      }
    }
  }

  /** Storing leaves every address no word is stored at unchanged. */
  lemma StoreWordsFrameAll(mem: Memories.Memory, a: Word, ws: seq<Word>)
    ensures forall b :: Untouched(a, |ws|, b) ==>
      Memories.Read(StoreWords(mem, a, ws), b) == Memories.Read(mem, b)
  {
    forall b | Untouched(a, |ws|, b)
      ensures Memories.Read(StoreWords(mem, a, ws), b) == Memories.Read(mem, b)
    {
      StoreWordsFrame(mem, a, ws, b);
    }
  }

  /** Storing puts word `k` at `a + k` unless a later word lands there too. */
  lemma StoreWordsPlacesAll(mem: Memories.Memory, a: Word, ws: seq<Word>)
    ensures forall k :: 0 <= k < |ws| && LastVisit(a, |ws|, k) ==>
      Memories.Read(StoreWords(mem, a, ws), Next(a, k)) == ws[k]
  {
    forall k | 0 <= k < |ws| && LastVisit(a, |ws|, k)
      ensures Memories.Read(StoreWords(mem, a, ws), Next(a, k)) == ws[k]
    {
      StoreWordsPlaces(mem, a, ws, k);
    }
  }

  /**
    The buffer-to-memory part of `load_obj_file`, with the source's loop.
    The origin is the first two bytes big-endian (0 for a shorter buffer,
    which loads nothing); program word `k` (see `ProgramWords`) is stored
    at origin + k; every address no word is stored at keeps its contents.
  */
  method LoadImage(buffer: seq<Byte>, mem: Memories.Memory) returns (origin: Word, mem': Memories.Memory)
    ensures |buffer| >= 2 ==> HighByte(origin) == buffer[0] && LowByte(origin) == buffer[1]
    ensures |buffer| < 2 ==> origin == 0 && mem' == mem
    ensures mem' == StoreWords(mem, origin, Program(buffer))
    ensures forall b :: Untouched(origin, |Program(buffer)|, b) ==>
      Memories.Read(mem', b) == Memories.Read(mem, b)
    ensures forall k :: 0 <= k < |Program(buffer)| && LastVisit(origin, |Program(buffer)|, k) ==>
      Memories.Read(mem', Next(origin, k)) == Program(buffer)[k]
    ensures NoWrap(origin, |Program(buffer)|) ==>
      forall k :: 0 <= k < |Program(buffer)| ==> Memories.Read(mem', Next(origin, k)) == Program(buffer)[k]
  {
    origin := 0;
    var i := 0;
    if |buffer| >= 2 {
      origin := FromBigEndian(buffer[0], buffer[1]);
      i := 2;
    }
    var address := origin;
    mem' := mem;
    ghost var words := Program(buffer);
    ghost var n := 0;
    while i < |buffer|
      invariant 0 <= n <= |words|
      invariant i == (if |buffer| >= 2 then 2 + 2 * n else 0)
      invariant address == Next(origin, n)
      invariant mem' == StoreWords(mem, origin, words[..n])
      decreases |buffer| - i
    {
      if i + 1 < |buffer| {
        var instruction := FromBigEndian(buffer[i], buffer[i + 1]);
        LoadStep(mem, buffer, n);
        mem' := Memories.Write(mem', address, instruction);
        NextStep(origin, n);
        address := address + 1;
        i := i + 2;
        n := n + 1;
      } else {
        break;
      }
    }
    assert n == |words|;
    assert words[..n] == words;
    StoreWordsFrameAll(mem, origin, words);
    StoreWordsPlacesAll(mem, origin, words);
    if NoWrap(origin, |words|) {
      StoreWordsNoWrap(mem, origin, words);
    }
  }

}
