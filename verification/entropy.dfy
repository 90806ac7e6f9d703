// The buffered entropy reader of shuffle.c (secure_random_bit): a 256-word
// buffer refilled in bulk from the entropy device and served one bit at a
// time, least significant bit of the current word first.
module Entropy {
  import opened Common
  import opened BitMath

  /** A uint32_t. The source's `w & 1` and `w >>= 1` on it are `w % 2` and `w / 2`. */
  type Word = x: nat | x < 0x1_0000_0000

  const BufWords: nat := 256   // BUFSZ, the buffer's capacity in words
  const WordBytes: nat := 4    // sizeof(uint32_t)
  const WordBits: nat := 32    // bits per word, WordBytes * 8

  /** What the device gave the one time a refill asked it. */
  datatype DeviceRead =
    | OpenFailed                          // open() returned a negative descriptor
    | Read(count: int, words: seq<Word>)  // read() returned count; words are the whole words it filled

  /** A read never returns more than the buffer it was given, and delivers count / 4 whole words. */
  predicate WellFormed(d: DeviceRead)
  {
    d.Read? ==> d.count <= BufWords * WordBytes && (d.count >= WordBytes ==> |d.words| == d.count / WordBytes)
  }

  /** The low n bits of w, least significant first. */
  function LowBits(w: Word, n: nat): (bs: seq<bool>)
    requires n <= WordBits
    ensures |bs| == n
  {
    if n == 0 then [] else [w % 2 == 1] + LowBits(w / 2, n - 1)
  }

  /** The bits of a run of words, word by word, each least significant bit first. */
  function StreamBits(ws: seq<Word>): (bs: seq<bool>)
    ensures |bs| == WordBits * |ws|
  {
    if ws == [] then [] else LowBits(ws[0], WordBits) + StreamBits(ws[1..])
  }

  /** Bit i of LowBits(w, n) is bit i of w. */
  lemma {:induction false} LowBitsAt(w: Word, n: nat, i: nat)
    requires i < n <= WordBits
    ensures LowBits(w, n)[i] == ((w / Pow2(i)) % 2 == 1)
  {
    if i > 0 {
      LowBitsAt(w / 2, n - 1, i - 1);
      HalveThenDivide(w, Pow2(i - 1));
    }
  }

  /** Bit i of the stream is bit i % 32 of word i / 32. */
  lemma {:induction false} StreamBitsAt(ws: seq<Word>, i: nat)
    requires i < WordBits * |ws|
    ensures StreamBits(ws)[i] == ((ws[i / WordBits] / Pow2(i % WordBits)) % 2 == 1)
  {
    if i < WordBits {
      LowBitsAt(ws[0], WordBits, i);
    } else {
      StreamBitsAt(ws[1..], i - WordBits);
      assert (i - WordBits) / WordBits == i / WordBits - 1;
      assert (i - WordBits) % WordBits == i % WordBits;
    }
  }

  /** The bits a buffer still holds for a cursor at word winx, bcnt bits in, with maxWinx valid words. */
  function Window(buf: seq<Word>, maxWinx: nat, winx: nat, bcnt: nat): (bs: seq<bool>)
    requires winx <= maxWinx <= |buf| && bcnt <= WordBits
    ensures winx < maxWinx ==> |bs| == WordBits * (maxWinx - winx) - bcnt
  {
    if winx == maxWinx then []
    else LowBits(buf[winx], WordBits - bcnt) + StreamBits(buf[winx + 1..maxWinx])
  }

  /** A freshly filled window holds the stream of the words filled. */
  lemma FilledWindow(buf: seq<Word>, words: seq<Word>)
    requires 0 < |words| <= |buf| && buf[..|words|] == words
    ensures Window(buf, |words|, 0, 0) == StreamBits(words)
  {
    assert buf[1..|words|] == words[1..];
  }

  /** Drawing one bit: the word's low bit comes out, the word is halved, the cursor moves one bit on. */
  lemma DrawStep(buf: seq<Word>, maxWinx: nat, winx: nat, bcnt: nat)
    requires winx < maxWinx <= |buf| && bcnt < WordBits
    ensures var w := buf[winx];
            var before := Window(buf, maxWinx, winx, bcnt);
            var after := if bcnt + 1 == WordBits then Window(buf[winx := w / 2], maxWinx, winx + 1, 0)
                         else Window(buf[winx := w / 2], maxWinx, winx, bcnt + 1);
            before != [] && before[0] == (w % 2 == 1) && after == before[1..]
  {
    var w := buf[winx];
    var buf' := buf[winx := w / 2];
    assert buf'[winx + 1..maxWinx] == buf[winx + 1..maxWinx];
    if bcnt + 1 == WordBits && winx + 1 < maxWinx {
      assert buf'[winx + 2..maxWinx] == buf[winx + 1..maxWinx][1..];
    }
  }

  /** bit is the first of the bits before, encoded 0 or 1, and after is what follows it. */
  ghost predicate Served(bit: nat, before: seq<bool>, after: seq<bool>)
  {
    before != [] && bit == (if before[0] then 1 else 0) && after == before[1..]
  }

  /** The process-wide state of secure_random_bit: rand_buf, max_winx, winx and bcnt. */
  class BitSource {
    var randBuf: array<Word>
    var maxWinx: nat   // words filled by the last refill
    var winx: nat      // index of the word bits are drawn from
    var bcnt: nat      // bits already drawn from that word
    ghost var refills: nat

    ghost predicate Valid()
      reads this
    {
      && randBuf.Length == BufWords
      && winx <= maxWinx <= BufWords
      && bcnt < WordBits
      && (winx == maxWinx ==> bcnt == 0)
    }

    /** A refill is due exactly when the cursor has reached the end of the valid window. */
    predicate NeedsRefill()
      reads this
    {
      winx == maxWinx
    }

    /** The bits served, in order, before the next refill. */
    ghost function Pending(): (bs: seq<bool>)
      reads this, randBuf
      requires Valid()
      ensures |bs| == WordBits * (maxWinx - winx) - bcnt
      ensures bs == [] <==> NeedsRefill()
    {
      Window(randBuf[..], maxWinx, winx, bcnt)
    }

    constructor ()
      ensures Valid() && fresh(randBuf)
      ensures maxWinx == 0 && winx == 0 && bcnt == 0 && refills == 0
      ensures NeedsRefill() && Pending() == []
    {
      randBuf := new Word[BufWords];
      maxWinx, winx, bcnt := 0, 0, 0;
      refills := 0;
    }

    /** secure_random_bit: refill if the window is used up, then take the current word's lowest bit. */
    method NextBit(device: DeviceRead) returns (res: Result<nat>)
      requires Valid() && WellFormed(device)
      modifies this, randBuf
      ensures Valid() && randBuf == old(randBuf)
      ensures res.Success? ==> res.value == 0 || res.value == 1
      // without a refill: the next pending bit, and the cursor moves on by one bit
      ensures !old(NeedsRefill()) ==>
        && res.Success?
        && Served(res.value, old(Pending()), Pending())
        && res.value == old(randBuf[winx]) % 2
        && maxWinx == old(maxWinx) && refills == old(refills)
        && winx * WordBits + bcnt == old(winx) * WordBits + old(bcnt) + 1
      // with a refill: the device's errors, or the first bit of what it delivered
      ensures old(NeedsRefill()) && device.OpenFailed? ==>
        res == Failure(EntropyUnavailable) && unchanged(this) && unchanged(randBuf)
      ensures old(NeedsRefill()) && device.Read? && device.count < WordBytes ==>
        res == Failure(EntropyShortRead) && unchanged(this) && unchanged(randBuf)
      ensures old(NeedsRefill()) && device.Read? && device.count >= WordBytes ==>
        && res.Success?
        && maxWinx == device.count / WordBytes
        && Served(res.value, StreamBits(device.words), Pending())
        && refills == old(refills) + 1
        && winx * WordBits + bcnt == 1
    {
      if winx == maxWinx {
        var loaded := Refill(device);
        if loaded.Failure? {
          return Failure(loaded.error);
        }
      }
      var bit := TakeBit();
      res := Success(bit);
    }

    /** The refill branch of secure_random_bit: a failed open or a read of under one word is an
        error and changes nothing; otherwise the complete words read become the new window. */
    method Refill(device: DeviceRead) returns (res: Result<nat>)
      requires Valid() && WellFormed(device) && NeedsRefill()
      modifies this, randBuf
      ensures Valid() && randBuf == old(randBuf)
      ensures device.OpenFailed? ==>
        res == Failure(EntropyUnavailable) && unchanged(this) && unchanged(randBuf)
      ensures device.Read? && device.count < WordBytes ==>
        res == Failure(EntropyShortRead) && unchanged(this) && unchanged(randBuf)
      ensures device.Read? && device.count >= WordBytes ==>
        && res == Success(device.count / WordBytes)
        && maxWinx == device.count / WordBytes && winx == 0 && bcnt == 0
        && Pending() == StreamBits(device.words)
        && refills == old(refills) + 1
    {
      match device
      case OpenFailed =>
        return Failure(EntropyUnavailable);
      case Read(count, words) =>
        if count < WordBytes as int {
          return Failure(EntropyShortRead);
        }
        var n := count / WordBytes;
        forall k | 0 <= k < n {
          randBuf[k] := words[k];
        }
        maxWinx, winx, bcnt := n, 0, 0;
        refills := refills + 1;
        FilledWindow(randBuf[..], words);
        res := Success(n);
    }

    /** The draw of secure_random_bit: the current word's lowest bit, the word shifted right in
        place, and the cursor moved to the next word after the 32nd bit. */
    method TakeBit() returns (bit: nat)
      requires Valid() && !NeedsRefill()
      modifies this, randBuf
      ensures Valid() && randBuf == old(randBuf)
      ensures Served(bit, old(Pending()), Pending())
      ensures bit == old(randBuf[winx]) % 2
      ensures randBuf[..] == old(randBuf[..])[old(winx) := old(randBuf[winx]) / 2]
      ensures maxWinx == old(maxWinx) && refills == old(refills)
      ensures old(bcnt) + 1 < WordBits ==> winx == old(winx) && bcnt == old(bcnt) + 1
      ensures old(bcnt) + 1 == WordBits ==> winx == old(winx) + 1 && bcnt == 0
    {
      ghost var before := Pending();
      ghost var cells := randBuf[..];
      DrawStep(cells, maxWinx, winx, bcnt);
      var w := randBuf[winx];
      bit := w % 2;
      randBuf[winx] := w / 2;
      assert randBuf[..] == cells[winx := w / 2];
      bcnt := bcnt + 1;
      if bcnt == WordBits {
        winx := winx + 1;
        bcnt := 0;
      }
      assert Pending() == before[1..];
    }
  }
}
