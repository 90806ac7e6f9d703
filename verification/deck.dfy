// The deck of shuffle.c: its layout (init_deck) and the Fisher-Yates shuffle (shuffle_deck),
// which takes each swap partner from the unbiased sampler.
module Deck {
  import opened Common
  import opened BitMath
  import opened Sampler
  import opened SamplerFacts

  /** A card: its suit letter and its rank letter. */
  datatype Card = Card(suit: char, rank: char)

  const DeckSize: nat := 52
  const Suits: seq<char> := ['S', 'H', 'D', 'C']
  const Ranks: seq<char> := ['A', '2', '3', '4', '5', '6', '7', '8', '9', 'T', 'J', 'Q', 'K']

  /** The card init_deck puts at index i: suits in blocks of 13, ranks Ace to King within a block. */
  function CardAt(i: nat): (c: Card)
    requires i < DeckSize
    ensures c.suit in Suits && c.rank in Ranks
  {
    Card(Suits[i / 13], Ranks[i % 13])
  }

  /** The deck as init_deck lays it out. */
  function NewDeck(): (d: seq<Card>)
    ensures |d| == DeckSize
  {
    seq(DeckSize, i requires 0 <= i < DeckSize => CardAt(i))
  }

  predicate Distinct<T(==)>(s: seq<T>) {
    forall i, j :: 0 <= i < j < |s| ==> s[i] != s[j]
  }

  /** No suit letter and no rank letter is listed twice. */
  lemma LettersDistinct()
    ensures Distinct(Suits) && Distinct(Ranks)
  {
  }

  /** Different indices hold different cards. */
  lemma CardAtInjective(i: nat, j: nat)
    requires i < DeckSize && j < DeckSize && CardAt(i) == CardAt(j)
    ensures i == j
  {
    LettersDistinct();
    assert i / 13 == j / 13;
    assert i % 13 == j % 13;
  }

  /** Every card of a suit and a rank from the two lists lies in the new deck. */
  lemma NewDeckComplete(c: Card)
    requires c.suit in Suits && c.rank in Ranks
    ensures c in NewDeck()
  {
    var s :| 0 <= s < |Suits| && Suits[s] == c.suit;
    var r :| 0 <= r < |Ranks| && Ranks[r] == c.rank;
    var i := 13 * s + r;
    assert i / 13 == s && i % 13 == r;
    assert NewDeck()[i] == c;
  }

  /** The new deck holds 52 distinct cards. */
  lemma NewDeckDistinct()
    ensures Distinct(NewDeck())
  {
    forall i, j | 0 <= i < j < DeckSize
      ensures NewDeck()[i] != NewDeck()[j]
    {
      if NewDeck()[i] == NewDeck()[j] {
        CardAtInjective(i, j);
      }
    }
  }

  /** init_deck: fill the 52 slots with the layout of CardAt. */
  method InitDeck(deck: array<Card>)
    requires deck.Length == DeckSize
    modifies deck
    ensures deck[..] == NewDeck()
  {
    for i := 0 to DeckSize
      invariant forall k :: 0 <= k < i ==> deck[k] == CardAt(k)
    {
      deck[i] := Card(Suits[i / 13], Ranks[i % 13]);
    }
  }

  /** s with the elements at i and j exchanged. */
  function Swap<T>(s: seq<T>, i: nat, j: nat): (t: seq<T>)
    requires i < |s| && j < |s|
    ensures |t| == |s| && t[i] == s[j] && t[j] == s[i]
    ensures forall k :: 0 <= k < |s| && k != i && k != j ==> t[k] == s[k]
  {
    s[i := s[j]][j := s[i]]
  }

  /** A swap permutes: the multiset of elements is unchanged. */
  lemma SwapPermutes<T>(s: seq<T>, i: nat, j: nat)
    requires i < |s| && j < |s|
    ensures multiset(Swap(s, i, j)) == multiset(s)
  {
  }

  /** A shuffled sequence and the index of the first unread bit. */
  datatype Dealt<T> = Dealt(cards: seq<T>, next: nat)

  /** The Fisher-Yates passes for i down to 1: draw j in [0, i] from the sampler, swap i and j.
      The slots above i are already final and are not touched. */
  function FisherYates<T>(s: seq<T>, i: nat, bits: seq<bool>, pos: nat): (res: Result<Dealt<T>>)
    requires i < |s| <= MaxRange && pos <= |bits|
    ensures res.Success? ==> |res.value.cards| == |s| && pos <= res.value.next <= |bits|
    ensures res.Failure? ==> res.error == OutOfBits
    decreases i
  {
    if i == 0 then Success(Dealt(s, pos))
    else
      match Sample(i + 1, bits, pos)
      case Failure(e) => Failure(e)
      case Success(d) =>
        var t := Swap(s, i, d.value);
        FisherYates(t, i - 1, bits, d.next)
  }

  /** One pass of FisherYates when the draw succeeds: swap, then the passes below i.
      The index of the next pass is the parameter below, so that a loop holding i - 1 in a
      variable can use this fact with that variable as it stands. */
  lemma FisherYatesStep<T>(s: seq<T>, i: nat, bits: seq<bool>, pos: nat, d: Draw, below: nat)
    requires 0 < i < |s| <= MaxRange && pos <= |bits| && below == i - 1
    requires Sample(i + 1, bits, pos) == Success(d)
    ensures FisherYates(s, i, bits, pos) == FisherYates(Swap(s, i, d.value), below, bits, d.next)
  {
    assert FisherYates(s, i, bits, pos) == FisherYates(Swap(s, i, d.value), i - 1, bits, d.next);
  }

  /** shuffle_deck on a sequence of any length; the empty sequence is left as it is. */
  function Shuffle<T>(s: seq<T>, bits: seq<bool>, start: nat): (res: Result<Dealt<T>>)
    requires |s| <= MaxRange && start <= |bits|
    ensures |s| <= 1 ==> res == Success(Dealt(s, start))
    ensures res.Success? ==> |res.value.cards| == |s| && start <= res.value.next <= |bits|
    ensures res.Failure? ==> res.error == OutOfBits
  {
    if |s| == 0 then Success(Dealt(s, start)) else FisherYates(s, |s| - 1, bits, start)
  }

  /** The passes permute: a successful result has the elements of s, each as often as in s. */
  lemma {:induction false} FisherYatesPermutes<T>(s: seq<T>, i: nat, bits: seq<bool>, pos: nat)
    requires i < |s| <= MaxRange && pos <= |bits|
    ensures var res := FisherYates(s, i, bits, pos);
            res.Success? ==> multiset(res.value.cards) == multiset(s)
    decreases i
  {
    if i > 0 && Sample(i + 1, bits, pos).Success? {
      var d := Sample(i + 1, bits, pos).value;
      SwapPermutes(s, i, d.value);
      FisherYatesPermutes(Swap(s, i, d.value), i - 1, bits, d.next);
    }
  }

  /** The passes for i down to 1 leave the slots above i as they are. */
  lemma {:induction false} FisherYatesKeepsTail<T>(s: seq<T>, i: nat, bits: seq<bool>, pos: nat)
    requires i < |s| <= MaxRange && pos <= |bits|
    ensures var res := FisherYates(s, i, bits, pos);
            res.Success? ==> res.value.cards[i + 1..] == s[i + 1..]
    decreases i
  {
    if i > 0 && Sample(i + 1, bits, pos).Success? {
      var d := Sample(i + 1, bits, pos).value;
      var t := Swap(s, i, d.value);
      FisherYatesKeepsTail(t, i - 1, bits, d.next);
      assert t[i + 1..] == s[i + 1..];
    }
  }

  /** A non-empty shuffle starts with the pass for the last index. */
  lemma ShuffleStarts<T>(s: seq<T>, bits: seq<bool>, start: nat, last: nat)
    requires |s| <= MaxRange && start <= |bits| && last + 1 == |s|
    ensures Shuffle(s, bits, start) == FisherYates(s, last, bits, start)
  {
  }

  /** A shuffle yields a permutation of its input and reads only bits that are there; it fails
      only by running out of bits. */
  lemma ShufflePermutes<T>(s: seq<T>, bits: seq<bool>, start: nat)
    requires |s| <= MaxRange && start <= |bits|
    ensures var res := Shuffle(s, bits, start);
            (res.Success? ==> multiset(res.value.cards) == multiset(s) && start <= res.value.next <= |bits|)
            && (res.Failure? ==> res.error == OutOfBits)
  {
    if |s| > 0 {
      FisherYatesPermutes(s, |s| - 1, bits, start);
    }
  }

  /** A sequence without repeats has each element at most once in its multiset. */
  lemma {:induction false} DistinctCounts<T>(s: seq<T>)
    requires Distinct(s)
    ensures forall x :: multiset(s)[x] <= 1
  {
    if |s| > 0 {
      var init, last := s[..|s| - 1], s[|s| - 1];
      assert s == init + [last];
      DistinctCounts(init);
      assert last !in init;
      forall x
        ensures multiset(s)[x] <= 1
      {
        assert multiset(s)[x] == multiset(init)[x] + multiset([last])[x];
      }
    }
  }

  /** An element at two indices occurs at least twice in the multiset. */
  lemma RepeatCounts<T>(s: seq<T>, i: nat, j: nat)
    requires i < j < |s| && s[i] == s[j]
    ensures multiset(s)[s[i]] >= 2
  {
    var front, back := s[..j], s[j..];
    assert s == front + back;
    assert front[i] == s[i] && back[0] == s[i];
    assert multiset(s) == multiset(front) + multiset(back);
    assert s[i] in multiset(front) && s[i] in multiset(back);
  }

  /** A permutation of a sequence without repeats has no repeats. */
  lemma PermutationKeepsDistinct<T>(s: seq<T>, t: seq<T>)
    requires Distinct(s) && multiset(t) == multiset(s)
    ensures Distinct(t)
  {
    DistinctCounts(s);
    forall i, j | 0 <= i < j < |t|
      ensures t[i] != t[j]
    {
      if t[i] == t[j] {
        RepeatCounts(t, i, j);
      }
    }
  }

  /** Shuffling a new deck gives 52 cards, each card of the 4 suits and 13 ranks exactly once. */
  lemma ShuffledDeckIsADeck(bits: seq<bool>, start: nat)
    requires start <= |bits|
    ensures var res := Shuffle(NewDeck(), bits, start);
            res.Success? ==>
              |res.value.cards| == DeckSize && Distinct(res.value.cards)
              && forall c :: c in res.value.cards <==> c.suit in Suits && c.rank in Ranks
  {
    var res := Shuffle(NewDeck(), bits, start);
    if res.Success? {
      var cards := res.value.cards;
      ShufflePermutes(NewDeck(), bits, start);
      NewDeckDistinct();
      PermutationKeepsDistinct(NewDeck(), cards);
      forall c
        ensures c in cards <==> c.suit in Suits && c.rank in Ranks
      {
        assert c in cards <==> c in multiset(cards);
        assert c in NewDeck() <==> c in multiset(NewDeck());
        if c.suit in Suits && c.rank in Ranks {
          NewDeckComplete(c);
        }
      }
    }
  }

  /** A deck of two: one bit decides, 1 keeps the order and 0 swaps the two cards. */
  lemma ShuffleOfTwo<T>(a: T, b: T, bits: seq<bool>, start: nat)
    requires start < |bits|
    ensures Shuffle([a, b], bits, start) == Success(Dealt(if bits[start] then [a, b] else [b, a], start + 1))
  {
    var v := if bits[start] then 1 else 0;
    assert Pow2(1) == 2;
    assert bits[start..start + 1][..0] == [];
    assert LsbValue(bits[start..start + 1]) == v;
    PowerOfTwoRange(1, bits, start);
    var d := Draw(v, start + 1);
    ShuffleStarts([a, b], bits, start, 1);
    FisherYatesStep([a, b], 1, bits, start, d, 0);
    assert Swap([a, b], 1, v) == if bits[start] then [a, b] else [b, a];
  }

  /** shuffle_deck: for i from the last index down to 1, swap slot i with slot j, where j is drawn
      from [0, i]. On success it returns the index of the first unread bit and the deck is the
      shuffle of its old contents; on failure it stops, the deck still a permutation of the old one. */
  method ShuffleDeck<T>(deck: array<T>, bits: seq<bool>, start: nat) returns (res: Result<nat>)
    requires deck.Length <= MaxRange && start <= |bits|
    modifies deck
    ensures multiset(deck[..]) == multiset(old(deck[..]))
    ensures match Shuffle(old(deck[..]), bits, start)
            case Success(d) => res == Success(d.next) && deck[..] == d.cards
            case Failure(e) => res == Failure(e)
  {
    if deck.Length == 0 {
      return Success(start);
    }
    ghost var initial := deck[..];
    ghost var spec := Shuffle(initial, bits, start);
    ghost var cur := initial;
    var i: nat := deck.Length - 1;
    var pos: nat := start;
    ShuffleStarts(initial, bits, start, i);
    while i > 0
      invariant i < deck.Length == |cur| && pos <= |bits| && deck[..] == cur
      invariant multiset(cur) == multiset(initial)
      invariant spec == FisherYates(cur, i, bits, pos)
      decreases i
    {
      var draw := SecureRandom(i + 1, bits, pos);
      if draw.Failure? {
        return Failure(draw.error);
      }
      var j: nat, next: nat, below: nat := draw.value.value, draw.value.next, i - 1;
      FisherYatesStep(cur, i, bits, pos, draw.value, below);
      SwapPermutes(cur, i, j);
      deck[i], deck[j] := deck[j], deck[i];
      cur := Swap(cur, i, j);
      assert deck[..] == cur;
      i, pos := below, next;
    }
    res := Success(pos);
  }
}
