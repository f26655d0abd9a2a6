/**
 * The storage containers of litemapy: the packed bit array that holds a
 * region's palette indices (`LitematicaBitArray`) and the dictionary that
 * refuses entries a predicate rejects and reports every change to two hooks
 * (`DiscriminatingDictionary`).
 */
module Storage {
  import opened Wrappers
  import opened BitMath

  // ===========================================================================
  // Packed bit array

  /** The exceptions the bit array raises. */
  datatype BitArrayError =
    | IndexError                                      // Python `IndexError`
    | ValueOutOfRange                                 // Python `ValueError` from `arr[i] = v`
    | WordCountMismatch(expected: nat, actual: nat)   // Python `ValueError("... does not match ...")`

  /** `ceil(size * nbits / 64)`: the number of words that hold `size` values of `nbits` bits. */
  function WordCount(size: nat, nbits: nat): nat
  {
    (size * nbits + WORD_BITS - 1) / WORD_BITS
  }

  /** The values packed into `ws`: value `i` is the `nbits` bits starting at bit `i * nbits`. */
  function Decode(ws: seq<nat>, size: nat, nbits: nat): (vals: seq<nat>)
    ensures |vals| == size
    ensures forall i :: 0 <= i < size ==> vals[i] < Pow2(nbits)
  {
    seq(size, i requires 0 <= i < size => Field(Num(ws), i * nbits, nbits))
  }

  /** `s` in the opposite order. */
  function Reverse<T>(s: seq<T>): (r: seq<T>)
    ensures |r| == |s|
  {
    seq(|s|, i requires 0 <= i < |s| => s[|s| - 1 - i])
  }

  lemma ReverseReverse<T>(s: seq<T>)
    ensures Reverse(Reverse(s)) == s
  {
    var r := Reverse(Reverse(s));
    forall i | 0 <= i < |s|
      ensures r[i] == s[i]
    {
      assert Reverse(s)[|s| - 1 - i] == s[i];
    }
  }

  /** Every value of a packed array lies inside the words that hold it. */
  lemma WordsCover(i: nat, size: nat, nbits: nat)
    requires i < size && 1 <= nbits
    ensures (i * nbits) / WORD_BITS <= ((i + 1) * nbits - 1) / WORD_BITS < WordCount(size, nbits)
  {
    MulMonotone(nbits, i + 1, size);
  }

  /** Where value `i` sits: word `s`, from bit `o`, ending in word `e`. */
  lemma Position(i: nat, nbits: nat, s: nat, o: nat, e: nat)
    requires 1 <= nbits <= WORD_BITS
    requires s == (i * nbits) / WORD_BITS && o == (i * nbits) % WORD_BITS
    requires e == ((i + 1) * nbits - 1) / WORD_BITS
    ensures i * nbits == WORD_BITS * s + o && o < WORD_BITS
    ensures s == e ==> o + nbits <= WORD_BITS
    ensures s != e ==> e == s + 1 && WORD_BITS < o + nbits
  {
    assert (i + 1) * nbits - 1 == i * nbits + nbits - 1;
  }

  /** Distinct values occupy disjoint bits. */
  lemma Disjoint(i: nat, j: nat, nbits: nat)
    requires i != j
    ensures i * nbits + nbits <= j * nbits || j * nbits + nbits <= i * nbits
  {
    if j < i {
      MulMonotone(nbits, j + 1, i);
      assert nbits * (j + 1) == j * nbits + nbits;
    } else {
      MulMonotone(nbits, i + 1, j);
      assert nbits * (i + 1) == i * nbits + nbits;
    }
  }

  /** The words of an array whose value `i` was replaced by `v`. */
  lemma DecodeUpdate(ws: seq<nat>, ws': seq<nat>, size: nat, nbits: nat, i: nat, v: nat)
    requires i < size && v < Pow2(nbits)
    requires Num(ws') == UpdateField(Num(ws), i * nbits, nbits, v)
    ensures Decode(ws', size, nbits) == Decode(ws, size, nbits)[i := v]
  {
    forall j | 0 <= j < size
      ensures Decode(ws', size, nbits)[j] == Decode(ws, size, nbits)[i := v][j]
    {
      EntryOfUpdate(Num(ws), Num(ws'), i, j, nbits, v);
    }
  }

  /** Replacing value `i` leaves value `j` alone unless `j == i`. */
  lemma EntryOfUpdate(n: nat, n': nat, i: nat, j: nat, nbits: nat, v: nat)
    requires v < Pow2(nbits)
    requires n' == UpdateField(n, i * nbits, nbits, v)
    ensures Field(n', j * nbits, nbits) == if j == i then v else Field(n, j * nbits, nbits)
  {
    if j == i {
      FieldOfUpdate(n, i * nbits, nbits, v);
    } else {
      Disjoint(i, j, nbits);
      FieldOfUpdateOther(n, i * nbits, nbits, v, j * nbits, nbits);
    }
  }

  /** A fresh array reads zero everywhere. */
  lemma DecodeZero(ws: seq<nat>, size: nat, nbits: nat)
    requires forall k :: 0 <= k < |ws| ==> ws[k] == 0
    ensures Decode(ws, size, nbits) == seq(size, _ => 0)
  {
    NumZero(ws);
    forall j | 0 <= j < size
      ensures Decode(ws, size, nbits)[j] == 0
    {
      assert 0 / Pow2(j * nbits) == 0;
    }
  }

  /**
   * `size` unsigned values of `nbits` bits each, packed least significant bit
   * first into `ceil(size * nbits / 64)` 64-bit words; a value may straddle two
   * adjacent words.
   */
  class LitematicaBitArray {
    const size: nat
    const nbits: nat
    const words: array<Word>

    ghost predicate Valid()
      reads this
    {
      1 <= nbits <= WORD_BITS && words.Length == WordCount(size, nbits)
    }

    /** The values the array holds. */
    ghost function Values(): seq<nat>
      reads this, words
    {
      Decode(words[..], size, nbits)
    }

    /** `LitematicaBitArray(size, nbits)`: every value is 0. */
    constructor (size: nat, nbits: nat)
      requires 1 <= nbits <= WORD_BITS
      ensures Valid() && fresh(words)
      ensures this.size == size && this.nbits == nbits
      ensures Values() == seq(size, _ => 0)
    {
      this.size := size;
      this.nbits := nbits;
      words := new Word[WordCount(size, nbits)](_ => 0);
      new;
      DecodeZero(words[..], size, nbits);
    }

    /**
     * Where value `i` lies: from bit `o` of word `s`, either inside that word
     * or running on into word `s + 1`.
     */
    method Place(i: nat) returns (s: nat, o: nat, within: bool)
      requires Valid() && i < size
      ensures i * nbits == WORD_BITS * s + o && o < WORD_BITS
      ensures within ==> s < words.Length && o + nbits <= WORD_BITS
      ensures !within ==> s + 1 < words.Length && WORD_BITS < o + nbits
    {
      var start := i * nbits;
      s, o := start / WORD_BITS, start % WORD_BITS;
      var e := ((i + 1) * nbits - 1) / WORD_BITS;
      WordsCover(i, size, nbits);
      Position(i, nbits, s, o, e);
      within := s == e;
    }

    /** Value `i` for an index known to be in range. */
    method Read(i: nat) returns (v: nat)
      requires Valid() && i < size
      ensures v == Values()[i]
    {
      var s, o, within := Place(i);
      if within {
        v := ReadWithin(i, s, o);
      } else {
        v := ReadAcross(i, s, o);
      }
    }

    /** `Read` for a value lying inside word `s` from bit `o`. */
    method ReadWithin(i: nat, s: nat, o: nat) returns (v: nat)
      requires Valid() && i < size
      requires s < words.Length && i * nbits == WORD_BITS * s + o && o + nbits <= WORD_BITS
      ensures v == Values()[i]
    {
      v := (words[s] / Pow2(o)) % Pow2(nbits);
      NumRead(words[..], s, o, nbits);
    }

    /** `Read` for a value starting at bit `o` of word `s` and ending in word `s + 1`. */
    method ReadAcross(i: nat, s: nat, o: nat) returns (v: nat)
      requires Valid() && i < size
      requires s + 1 < words.Length && i * nbits == WORD_BITS * s + o && o < WORD_BITS < o + nbits
      ensures v == Values()[i]
    {
      v := (words[s] / Pow2(o) + Pow2(WORD_BITS - o) * words[s + 1]) % Pow2(nbits);
      ReadStraddle(words[..], s, o, nbits);
    }

    /** `arr[i]`: value `i`, or IndexError outside `[0, size)`. */
    method Get(i: int) returns (r: Result<nat, BitArrayError>)
      requires Valid()
      ensures 0 <= i < size ==> r == Success(Values()[i])
      ensures !(0 <= i < size) ==> r == Failure(IndexError)
    {
      if i < 0 || i >= size {
        return Failure(IndexError);
      }
      var v := Read(i);
      return Success(v);
    }

    /** Replaces value `i` by `v`, which has at most `nbits` bits. */
    method Write(i: nat, v: nat)
      requires Valid() && i < size && v < Pow2(nbits)
      modifies words
      ensures Values() == old(Values())[i := v]
    {
      var s, o, within := Place(i);
      if within {
        WriteWithin(i, v, s, o);
      } else {
        WriteAcross(i, v, s, o);
      }
    }

    /** `Write` for a value lying inside word `s` from bit `o`. */
    method WriteWithin(i: nat, v: nat, s: nat, o: nat)
      requires Valid() && i < size && v < Pow2(nbits)
      requires s < words.Length && i * nbits == WORD_BITS * s + o && o + nbits <= WORD_BITS
      modifies words
      ensures Values() == old(Values())[i := v]
    {
      ghost var ws := words[..];
      NumWrite(ws, s, o, nbits, v);
      words[s] := UpdateField(words[s], o, nbits, v);
      assert words[..] == ws[s := UpdateField(ws[s], o, nbits, v)];
      DecodeUpdate(ws, words[..], size, nbits, i, v);
    }

    /** `Write` for a value starting at bit `o` of word `s` and ending in word `s + 1`. */
    method WriteAcross(i: nat, v: nat, s: nat, o: nat)
      requires Valid() && i < size && v < Pow2(nbits)
      requires s + 1 < words.Length && i * nbits == WORD_BITS * s + o && o < WORD_BITS < o + nbits
      modifies words
      ensures Values() == old(Values())[i := v]
    {
      ghost var ws := words[..];
      var j, v1, v2 := o + nbits - WORD_BITS, v % Pow2(WORD_BITS - o), v / Pow2(WORD_BITS - o);
      WriteStraddle(ws, s, o, nbits, v, j, v1, v2);
      words[s] := UpdateField(words[s], o, WORD_BITS - o, v1);
      words[s + 1] := UpdateField(words[s + 1], 0, j, v2);
      assert words[..] == ws[s := UpdateField(ws[s], o, WORD_BITS - o, v1)][s + 1 := UpdateField(ws[s + 1], 0, j, v2)];
      DecodeUpdate(ws, words[..], size, nbits, i, v);
    }

    /**
     * `arr[i] = v`: IndexError outside `[0, size)`, then ValueError unless
     * `0 <= v < 2^nbits`; otherwise value `i` becomes `v` and no other changes.
     */
    method Set(i: int, v: int) returns (r: Outcome<BitArrayError>)
      requires Valid()
      modifies words
      ensures 0 <= i < size && 0 <= v < Pow2(nbits) ==> r == Pass && Values() == old(Values())[i := v]
      ensures !(0 <= i < size) ==> r == Fail(IndexError) && Values() == old(Values())
      ensures 0 <= i < size && !(0 <= v < Pow2(nbits)) ==> r == Fail(ValueOutOfRange) && Values() == old(Values())
    {
      if i < 0 || i >= size {
        return Fail(IndexError);
      }
      if v < 0 || v >= Pow2(nbits) {
        return Fail(ValueOutOfRange);
      }
      Write(i, v);
      return Pass;
    }

    /** `_to_long_list()`: the words, as unsigned 64-bit values. */
    method ToWords() returns (ws: seq<Word>)
      requires Valid()
      ensures |ws| == WordCount(size, nbits)
      ensures Decode(ws, size, nbits) == Values()
    {
      ws := words[..];
    }

    /**
     * `from_nbt_long_array(ws, size, nbits)`: an array over a copy of `ws`, or
     * ValueError when `ws` does not have exactly `ceil(size * nbits / 64)` words.
     */
    static method FromWords(ws: seq<Word>, size: nat, nbits: nat) returns (r: Result<LitematicaBitArray, BitArrayError>)
      requires 1 <= nbits <= WORD_BITS
      ensures |ws| == WordCount(size, nbits) <==> r.Success?
      ensures r.Failure? ==> r.error == WordCountMismatch(WordCount(size, nbits), |ws|)
      ensures r.Success? ==> fresh(r.value) && fresh(r.value.words) && r.value.Valid()
      ensures r.Success? ==> r.value.size == size && r.value.nbits == nbits
      ensures r.Success? ==> r.value.Values() == Decode(ws, size, nbits)
    {
      if |ws| != WordCount(size, nbits) {
        return Failure(WordCountMismatch(WordCount(size, nbits), |ws|));
      }
      var a := new LitematicaBitArray(size, nbits);
      forall k | 0 <= k < |ws| {
        a.words[k] := ws[k];
      }
      assert a.words[..] == ws;
      return Success(a);
    }

    /** `list(arr)`: the `size` values in index order. */
    method Iterate() returns (vals: seq<nat>)
      requires Valid()
      ensures vals == Values()
    {
      vals := [];
      var i := 0;
      while i < size
        invariant 0 <= i <= size
        invariant vals == Values()[..i]
      {
        var v := Read(i);
        vals := vals + [v];
        i := i + 1;
      }
    }

    /** `reversed(arr)`: a new array whose value `k` is this array's value `size - 1 - k`. */
    method Reversed() returns (r: LitematicaBitArray)
      requires Valid()
      ensures fresh(r) && fresh(r.words) && r.Valid()
      ensures r.size == size && r.nbits == nbits
      ensures r.Values() == Reverse(Values())
      ensures Values() == old(Values())
    {
      ghost var vals := Values();
      r := new LitematicaBitArray(size, nbits);
      var k := 0;
      while k < size
        invariant 0 <= k <= size
        invariant fresh(r.words) && r.Valid() && r.size == size && r.nbits == nbits
        invariant Values() == vals
        invariant |r.Values()| == size
        invariant forall t :: 0 <= t < k ==> r.Values()[t] == vals[size - 1 - t]
      {
        ghost var prev := r.Values();
        var v := Read(size - 1 - k);
        r.Write(k, v);
        assert r.Values() == prev[k := v];
        k := k + 1;
      }
    }

    /** `v in arr`: some index holds `v`. */
    method Contains(v: int) returns (b: bool)
      requires Valid()
      ensures b <==> v in Values()
    {
      var i := 0;
      while i < size
        invariant 0 <= i <= size
        invariant v !in Values()[..i]
      {
        var x := Read(i);
        if x == v {
          assert Values()[i] == v;
          return true;
        }
        i := i + 1;
      }
      assert Values()[..size] == Values();
      return false;
    }
  }
  // ===========================================================================
  // Discriminating dictionary

  /** What the two hooks are told: `onadd(key, value)` or `onremove(key, value)`. */
  datatype Event<K, V> = Added(key: K, value: V) | Removed(key: K, value: V)

  /** The exceptions the dictionary raises. */
  datatype DictError<K> =
    | DiscriminationError(reason: string)   // the discriminator refused a pair
    | KeyError(key: K)                      // `d[k]`, `del d[k]`, `d.pop(k)` on a missing key
    | EmptyDictionary                       // `d.popitem()` on an empty dictionary (a KeyError too)

  /** The discriminator: whether a pair may be stored, and the reason given when not. */
  type Discriminator<-K, -V> = (K, V) -> (bool, string)

  /** The dictionary's contents: its keys in insertion order and its mapping. */
  datatype State<K, V> = State(keys: seq<K>, store: map<K, V>)

  /** What an operation did: its outcome, the new contents, and the hook calls it made. */
  datatype Change<K, V> = Change(outcome: Outcome<DictError<K>>, state: State<K, V>, fired: seq<Event<K, V>>)

  predicate Distinct<K(==)>(s: seq<K>)
  {
    forall i, j :: 0 <= i < j < |s| ==> s[i] != s[j]
  }

  /** The key order lists exactly the mapped keys, each once. */
  predicate Ordered<K(==), V>(st: State<K, V>)
  {
    && Distinct(st.keys)
    && (forall k | k in st.store :: k in st.keys)
    && (forall i | 0 <= i < |st.keys| :: st.keys[i] in st.store)
  }

  /** Every stored pair is one the discriminator accepts. */
  predicate Accepted<K(==), V>(disc: Discriminator<K, V>, m: map<K, V>)
  {
    forall k | k in m :: disc(k, m[k]).0
  }

  /** What a dictionary always is: ordered, and holding only accepted pairs. */
  predicate WellFormed<K(==), V>(disc: Discriminator<K, V>, st: State<K, V>)
  {
    Ordered(st) && Accepted(disc, st.store)
  }

  /** The effect of one hook call on the mapping the hooks have observed. */
  function Apply<K(==), V>(m: map<K, V>, e: Event<K, V>): map<K, V>
  {
    match e
    case Added(k, v) => m[k := v]
    case Removed(k, _) => m - {k}
  }

  /** The mapping an observer of the hooks reconstructs from `m` and the calls `evs`. */
  function Replay<K(==), V>(m: map<K, V>, evs: seq<Event<K, V>>): map<K, V>
    decreases |evs|
  {
    if |evs| == 0 then m else Replay(Apply(m, evs[0]), evs[1..])
  }

  lemma {:induction false} ReplayAppend<K, V>(m: map<K, V>, a: seq<Event<K, V>>, b: seq<Event<K, V>>)
    ensures Replay(m, a + b) == Replay(Replay(m, a), b)
    decreases |a|
  {
    if |a| > 0 {
      assert (a + b)[1..] == a[1..] + b;
      ReplayAppend(Apply(m, a[0]), a[1..], b);
    } else {
      assert a + b == b;
    }
  }

  /** Python's `dict.__setitem__`: a new key goes last, an existing key keeps its place. */
  function Insert<K(==), V>(st: State<K, V>, k: K, v: V): (r: State<K, V>)
    ensures r.store == st.store[k := v]
    ensures Ordered(st) ==> Ordered(r)
    ensures k in st.store ==> r.keys == st.keys
    ensures k !in st.store ==> r.keys == st.keys + [k]
  {
    State(if k in st.store then st.keys else st.keys + [k], st.store[k := v])
  }

  /** `d[k] = v`: refuse a pair the discriminator rejects, else store it and tell the hooks. */
  function Store<K(==), V>(disc: Discriminator<K, V>, st: State<K, V>, k: K, v: V): (r: Change<K, V>)
    ensures r.outcome.Pass? <==> disc(k, v).0
    ensures r.outcome.Fail? ==> r.outcome.error == DiscriminationError(disc(k, v).1) && r.state == st && r.fired == []
    ensures r.outcome.Pass? ==> r.state == Insert(st, k, v)
    ensures r.outcome.Pass? && k in st.store ==> r.fired == [Removed(k, st.store[k]), Added(k, v)]
    ensures r.outcome.Pass? && k !in st.store ==> r.fired == [Added(k, v)]
  {
    var verdict := disc(k, v);
    if !verdict.0 then Change(Fail(DiscriminationError(verdict.1)), st, [])
    else if k in st.store then Change(Pass, Insert(st, k, v), [Removed(k, st.store[k]), Added(k, v)])
    else Change(Pass, Insert(st, k, v), [Added(k, v)])
  }

  /** A change keeps the dictionary well formed, and its hook calls describe it exactly. */
  ghost predicate Faithful<K, V>(disc: Discriminator<K, V>, st: State<K, V>, c: Change<K, V>)
  {
    WellFormed(disc, st) ==> WellFormed(disc, c.state) && Replay(st.store, c.fired) == c.state.store
  }

  lemma StoreFaithful<K, V>(disc: Discriminator<K, V>, st: State<K, V>, k: K, v: V)
    ensures Faithful(disc, st, Store(disc, st, k, v))
  {
    var c := Store(disc, st, k, v);
    if c.outcome.Pass? {
      var m := Apply(st.store, c.fired[0]);
      if k in st.store {
        assert c.fired[1..][1..] == [];
        assert Replay(st.store, c.fired) == Replay(m, c.fired[1..]) == Replay(m[k := v], []);
        assert m[k := v] == st.store[k := v];
      } else {
        assert c.fired[1..] == [];
      }
    }
  }

  /** `d[k] = v` followed by `d[k]` gives back `v`; the other keys keep their values. */
  lemma StoreThenLookup<K, V>(disc: Discriminator<K, V>, st: State<K, V>, k: K, v: V, k': K)
    requires disc(k, v).0
    ensures Store(disc, st, k, v).state.store[k] == v
    ensures k' != k ==> (k' in Store(disc, st, k, v).state.store <==> k' in st.store)
    ensures k' != k && k' in st.store ==> Store(disc, st, k, v).state.store[k'] == st.store[k']
  {
  }

  /** Adds `c`'s hook calls after `fired`. */
  function After<K(==), V>(fired: seq<Event<K, V>>, c: Change<K, V>): Change<K, V>
  {
    Change(c.outcome, c.state, fired + c.fired)
  }

  lemma Associative<T>(a: seq<T>, b: seq<T>, c: seq<T>)
    ensures (a + b) + c == a + (b + c)
  {
  }

  lemma AfterAfter<K, V>(a: seq<Event<K, V>>, b: seq<Event<K, V>>, c: Change<K, V>)
    ensures After(a, After(b, c)) == After(a + b, c)
  {
    assert a + (b + c.fired) == (a + b) + c.fired;
  }

  /** `d.update(pairs)`: `d[k] = v` for each pair in turn, stopping at the first refused one. */
  function UpdateAll<K(==), V>(disc: Discriminator<K, V>, st: State<K, V>, pairs: seq<(K, V)>): Change<K, V>
    decreases |pairs|
  {
    if |pairs| == 0 then Change(Pass, st, [])
    else
      var c := Store(disc, st, pairs[0].0, pairs[0].1);
      if c.outcome.Fail? then c else After(c.fired, UpdateAll(disc, c.state, pairs[1..]))
  }

  /** `update` succeeds iff every pair is accepted; otherwise it reports the first refused pair. */
  lemma {:induction false} UpdateAllOutcome<K, V>(disc: Discriminator<K, V>, st: State<K, V>, pairs: seq<(K, V)>)
    ensures UpdateAll(disc, st, pairs).outcome.Pass? <==> forall i :: 0 <= i < |pairs| ==> disc(pairs[i].0, pairs[i].1).0
    ensures UpdateAll(disc, st, pairs).outcome.Fail? ==>
              (exists i :: 0 <= i < |pairs| && !disc(pairs[i].0, pairs[i].1).0
                 && (forall j :: 0 <= j < i ==> disc(pairs[j].0, pairs[j].1).0)
                 && UpdateAll(disc, st, pairs).outcome.error == DiscriminationError(disc(pairs[i].0, pairs[i].1).1))
    decreases |pairs|
  {
    if |pairs| > 0 {
      var c := Store(disc, st, pairs[0].0, pairs[0].1);
      if c.outcome.Pass? {
        UpdateAllOutcome(disc, c.state, pairs[1..]);
        assert forall i :: 1 <= i < |pairs| ==> pairs[i] == pairs[1..][i - 1];
        if UpdateAll(disc, st, pairs).outcome.Fail? {
          var i :| 0 <= i < |pairs[1..]| && !disc(pairs[1..][i].0, pairs[1..][i].1).0
                   && (forall j :: 0 <= j < i ==> disc(pairs[1..][j].0, pairs[1..][j].1).0)
                   && UpdateAll(disc, c.state, pairs[1..]).outcome.error == DiscriminationError(disc(pairs[1..][i].0, pairs[1..][i].1).1);
          assert forall j :: 0 <= j < i + 1 ==> disc(pairs[j].0, pairs[j].1).0 by {
            forall j | 0 <= j < i + 1 ensures disc(pairs[j].0, pairs[j].1).0 {
              if j > 0 {
                assert pairs[j] == pairs[1..][j - 1];
              }
            }
          }
        }
      }
    }
  }

  /** `update` keeps the dictionary well formed, and the hooks hear of exactly what it changed. */
  lemma {:induction false} UpdateAllFaithful<K, V>(disc: Discriminator<K, V>, st: State<K, V>, pairs: seq<(K, V)>)
    ensures Faithful(disc, st, UpdateAll(disc, st, pairs))
    decreases |pairs|
  {
    if |pairs| > 0 {
      var c := Store(disc, st, pairs[0].0, pairs[0].1);
      StoreFaithful(disc, st, pairs[0].0, pairs[0].1);
      if c.outcome.Pass? {
        var rest := UpdateAll(disc, c.state, pairs[1..]);
        UpdateAllFaithful(disc, c.state, pairs[1..]);
        ReplayAppend(st.store, c.fired, rest.fired);
      }
    }
  }

  /** One step of `update`: the first remaining pair is stored, then the rest follow. */
  lemma UpdateAllStep<K, V>(disc: Discriminator<K, V>, st: State<K, V>, pairs: seq<(K, V)>, i: nat)
    requires i < |pairs|
    ensures var c := Store(disc, st, pairs[i].0, pairs[i].1);
            UpdateAll(disc, st, pairs[i..]) == if c.outcome.Fail? then c else After(c.fired, UpdateAll(disc, c.state, pairs[i + 1..]))
  {
    assert pairs[i..][1..] == pairs[i + 1..];
  }

  /** `s` without `k`. */
  function Without<K(==)>(s: seq<K>, k: K): (r: seq<K>)
    ensures forall x | x in r :: x in s && x != k
    ensures forall x | x in s && x != k :: x in r
    ensures Distinct(s) ==> Distinct(r)
    ensures k !in s ==> r == s
  {
    if |s| == 0 then []
    else
      var rest := Without(s[1..], k);
      assert s == [s[0]] + s[1..];
      assert Distinct(s) ==> Distinct(s[1..]) && s[0] !in s[1..];
      if s[0] == k then rest
      else [s[0]] + rest
  }

  lemma WithoutOrdered<K, V>(st: State<K, V>, k: K)
    ensures Ordered(st) ==> Ordered(State(Without(st.keys, k), st.store - {k}))
  {
    var r := Without(st.keys, k);
    forall i | 0 <= i < |r|
      ensures r[i] in r
    {
    }
  }

  /** `del d[k]`: forget `k`, telling the remove hook which value went. */
  function Remove<K(==), V>(st: State<K, V>, k: K): (r: Change<K, V>)
    ensures r.outcome.Pass? <==> k in st.store
    ensures r.outcome.Fail? ==> r.outcome.error == KeyError(k) && r.state == st && r.fired == []
    ensures r.outcome.Pass? ==> r.state.store == st.store - {k} && r.fired == [Removed(k, st.store[k])]
    ensures Ordered(st) ==> Ordered(r.state)
  {
    if k in st.store then
      WithoutOrdered(st, k);
      Change(Pass, State(Without(st.keys, k), st.store - {k}), [Removed(k, st.store[k])])
    else Change(Fail(KeyError(k)), st, [])
  }

  lemma RemoveFaithful<K, V>(disc: Discriminator<K, V>, st: State<K, V>, k: K)
    ensures Faithful(disc, st, Remove(st, k))
  {
  }

  /** The remove-hook calls of `clear()`: one per key, in insertion order. */
  function Removals<K(==), V>(ks: seq<K>, m: map<K, V>): (evs: seq<Event<K, V>>)
    requires forall k :: k in ks ==> k in m
    ensures |evs| == |ks|
    ensures forall i :: 0 <= i < |ks| ==> evs[i] == Removed(ks[i], m[ks[i]])
  {
    seq(|ks|, i requires 0 <= i < |ks| => Removed(ks[i], m[ks[i]]))
  }

  /** Replaying the removal of every key in `ks` takes those keys out of the mapping. */
  lemma {:induction false} ReplayRemovals<K, V>(m: map<K, V>, ks: seq<K>, src: map<K, V>)
    requires forall k :: k in ks ==> k in src
    ensures Replay(m, Removals(ks, src)) == m - (set k | k in ks)
  {
    if |ks| > 0 {
      var evs := Removals(ks, src);
      assert evs[1..] == Removals(ks[1..], src);
      ReplayRemovals(m - {ks[0]}, ks[1..], src);
      assert (m - {ks[0]}) - (set k | k in ks[1..]) == m - (set k | k in ks);
    }
  }

  /** Reading each pair `(k, v)` into a fresh dictionary, a later pair overriding an earlier one. */
  function FromPairs<K(==), V>(pairs: seq<(K, V)>): (r: State<K, V>)
    ensures Ordered(r)
    ensures forall k | k in r.store :: exists i :: 0 <= i < |pairs| && pairs[i].0 == k
    ensures forall i | 0 <= i < |pairs| :: pairs[i].0 in r.store
  {
    if |pairs| == 0 then State([], map[])
    else
      var init := FromPairs(pairs[..|pairs| - 1]);
      assert forall i :: 0 <= i < |pairs| - 1 ==> pairs[..|pairs| - 1][i] == pairs[i];
      Insert(init, pairs[|pairs| - 1].0, pairs[|pairs| - 1].1)
  }

  lemma FromPairsStep<K, V>(pairs: seq<(K, V)>, i: nat)
    requires i < |pairs|
    ensures FromPairs(pairs[..i + 1]) == Insert(FromPairs(pairs[..i]), pairs[i].0, pairs[i].1)
  {
    assert pairs[..i + 1][..i] == pairs[..i];
  }

  /**
   * A dictionary whose every pair passes `discriminator`, which reports each
   * entry it gains to `onadd` and each it loses to `onremove`. The hooks are
   * modelled by `events`, the calls made so far; `initial` is what the
   * dictionary held when it was built, so that replaying the calls over it
   * always gives what it holds now.
   */
  class DiscriminatingDictionary<K(==), V> {
    const discriminator: Discriminator<K, V>
    var keys: seq<K>
    var store: map<K, V>
    ghost var initial: map<K, V>
    ghost var events: seq<Event<K, V>>

    ghost predicate Valid()
      reads this
    {
      WellFormed(discriminator, State(keys, store)) && Replay(initial, events) == store
    }

    function Snapshot(): State<K, V>
      reads this
    {
      State(keys, store)
    }

    /** Building over contents already checked: the hooks are not called. */
    constructor (disc: Discriminator<K, V>, st: State<K, V>)
      requires WellFormed(disc, st)
      ensures Valid() && discriminator == disc && Snapshot() == st && events == []
    {
      discriminator := disc;
      keys, store := st.keys, st.store;
      initial, events := st.store, [];
    }

    /**
     * `DiscriminatingDictionary(disc, pairs)`: the pairs read as a dict, then
     * DiscriminationError if the discriminator refuses any resulting entry.
     */
    static method Create(disc: Discriminator<K, V>, pairs: seq<(K, V)>) returns (r: Result<DiscriminatingDictionary<K, V>, DictError<K>>)
      ensures r.Success? <==> Accepted(disc, FromPairs(pairs).store)
      ensures r.Success? ==> fresh(r.value) && r.value.Valid() && r.value.discriminator == disc
      ensures r.Success? ==> r.value.Snapshot() == FromPairs(pairs) && r.value.events == []
      ensures r.Failure? ==> (exists k :: k in FromPairs(pairs).store && !disc(k, FromPairs(pairs).store[k]).0
                                          && r.error == DiscriminationError(disc(k, FromPairs(pairs).store[k]).1))
    {
      var st := Collect(pairs);
      var o := Screen(disc, st);
      if o.Fail? {
        return Failure(o.error);
      }
      var d := new DiscriminatingDictionary(disc, st);
      return Success(d);
    }

    /** The pairs read as a dict, later pairs overwriting earlier values in place. */
    static method Collect(pairs: seq<(K, V)>) returns (st: State<K, V>)
      ensures st == FromPairs(pairs)
    {
      st := State([], map[]);
      var i := 0;
      while i < |pairs|
        invariant 0 <= i <= |pairs|
        invariant st == FromPairs(pairs[..i])
      {
        FromPairsStep(pairs, i);
        st := Insert(st, pairs[i].0, pairs[i].1);
        i := i + 1;
      }
      assert pairs[..|pairs|] == pairs;
    }

    /** Asks the discriminator about every entry in key order, stopping at the first refusal. */
    static method Screen(disc: Discriminator<K, V>, st: State<K, V>) returns (o: Outcome<DictError<K>>)
      requires Ordered(st)
      ensures o.Pass? <==> Accepted(disc, st.store)
      ensures o.Fail? ==> (exists k :: k in st.store && !disc(k, st.store[k]).0
                                      && o.error == DiscriminationError(disc(k, st.store[k]).1))
    {
      var i := 0;
      while i < |st.keys|
        invariant 0 <= i <= |st.keys|
        invariant forall j :: 0 <= j < i ==> disc(st.keys[j], st.store[st.keys[j]]).0
      {
        var verdict := disc(st.keys[i], st.store[st.keys[i]]);
        if !verdict.0 {
          return Fail(DiscriminationError(verdict.1));
        }
        i := i + 1;
      }
      assert forall k | k in st.store :: exists j :: 0 <= j < |st.keys| && st.keys[j] == k;
      return Pass;
    }

    /** `k in d`. */
    method Contains(k: K) returns (b: bool)
      requires Valid()
      ensures b <==> k in store
      ensures b <==> k in keys
    {
      return k in store;
    }

    /** `d.get(k)`: the value of `k`, or None. */
    method Lookup(k: K) returns (r: Option<V>)
      requires Valid()
      ensures k in store ==> r == Some(store[k])
      ensures k !in store ==> r == None
    {
      if k in store {
        return Some(store[k]);
      }
      return None;
    }

    /** `d[k]`: the value of `k`, or KeyError. */
    method GetItem(k: K) returns (r: Result<V, DictError<K>>)
      requires Valid()
      ensures k in store ==> r == Success(store[k])
      ensures k !in store ==> r == Failure(KeyError(k))
    {
      if k in store {
        return Success(store[k]);
      }
      return Failure(KeyError(k));
    }

    /** `d.values()`: the values in key order. */
    method Values() returns (vs: seq<V>)
      requires Valid()
      ensures |vs| == |keys|
      ensures forall i :: 0 <= i < |keys| ==> vs[i] == store[keys[i]]
      ensures forall k :: k in store ==> store[k] in vs
    {
      var ks, m := keys, store;
      vs := seq(|ks|, i requires 0 <= i < |ks| => m[ks[i]]);
      forall k | k in m
        ensures m[k] in vs
      {
        var i :| 0 <= i < |ks| && ks[i] == k;
        assert vs[i] == m[k];
      }
    }

    /** `d[k] = v`. */
    method SetItem(k: K, v: V) returns (r: Outcome<DictError<K>>)
      requires Valid()
      modifies this
      ensures Valid() && initial == old(initial)
      ensures r == Store(discriminator, old(Snapshot()), k, v).outcome
      ensures Snapshot() == Store(discriminator, old(Snapshot()), k, v).state
      ensures events == old(events) + Store(discriminator, old(Snapshot()), k, v).fired
    {
      var verdict := discriminator(k, v);
      if !verdict.0 {
        return Fail(DiscriminationError(verdict.1));
      }
      ghost var before := Snapshot();
      StoreFaithful(discriminator, before, k, v);
      ReplayAppend(initial, events, Store(discriminator, before, k, v).fired);
      if k in store {
        events := events + [Removed(k, store[k]), Added(k, v)];
      } else {
        keys := keys + [k];
        events := events + [Added(k, v)];
      }
      store := store[k := v];
      return Pass;
    }

    /** `d.update(pairs)`. */
    method Update(pairs: seq<(K, V)>) returns (r: Outcome<DictError<K>>)
      requires Valid()
      modifies this
      ensures Valid() && initial == old(initial)
      ensures r == UpdateAll(discriminator, old(Snapshot()), pairs).outcome
      ensures Snapshot() == UpdateAll(discriminator, old(Snapshot()), pairs).state
      ensures events == old(events) + UpdateAll(discriminator, old(Snapshot()), pairs).fired
    {
      ghost var total := UpdateAll(discriminator, Snapshot(), pairs);
      ghost var acc: seq<Event<K, V>> := [];
      var i := 0;
      while i < |pairs|
        invariant 0 <= i <= |pairs|
        invariant Valid() && initial == old(initial)
        invariant events == old(events) + acc
        invariant total == After(acc, UpdateAll(discriminator, Snapshot(), pairs[i..]))
      {
        ghost var fired;
        r, fired := UpdateStep(pairs, i, total, acc);
        if r.Fail? {
          return;
        }
        Associative(old(events), acc, fired);
        acc := acc + fired;
        i := i + 1;
      }
      assert pairs[i..] == [];
      return Pass;
    }

    /**
     * One pair of `update`: `d[k] = v`, with what it fired, placed within the
     * whole `UpdateAll` change when `acc` was fired before it.
     */
    method UpdateStep(pairs: seq<(K, V)>, i: nat, ghost total: Change<K, V>, ghost acc: seq<Event<K, V>>)
      returns (r: Outcome<DictError<K>>, ghost fired: seq<Event<K, V>>)
      requires Valid() && i < |pairs|
      requires total == After(acc, UpdateAll(discriminator, Snapshot(), pairs[i..]))
      modifies this
      ensures Valid() && initial == old(initial)
      ensures events == old(events) + fired
      ensures r.Fail? ==> total == Change(r, Snapshot(), acc) && fired == []
      ensures r.Pass? ==> total == After(acc + fired, UpdateAll(discriminator, Snapshot(), pairs[i + 1..]))
    {
      UpdateAllStep(discriminator, Snapshot(), pairs, i);
      ghost var c := Store(discriminator, Snapshot(), pairs[i].0, pairs[i].1);
      ghost var rest := UpdateAll(discriminator, c.state, pairs[i + 1..]);
      r := SetItem(pairs[i].0, pairs[i].1);
      fired := c.fired;
      if r.Pass? {
        AfterAfter(acc, c.fired, rest);
      } else {
        assert acc + [] == acc;
      }
    }

    /** `d.setdefault(k, default)`: store `default` under a missing `k`, then return `d[k]`. */
    method SetDefault(k: K, default: V) returns (r: Result<V, DictError<K>>)
      requires Valid()
      modifies this
      ensures Valid() && initial == old(initial)
      ensures k in old(store) ==> r == Success(old(store)[k]) && Snapshot() == old(Snapshot()) && events == old(events)
      ensures k !in old(store) && !discriminator(k, default).0 ==>
                (r == Failure(DiscriminationError(discriminator(k, default).1)) && Snapshot() == old(Snapshot()) && events == old(events))
      ensures k !in old(store) && discriminator(k, default).0 ==>
                (r == Success(default) && Snapshot() == Insert(old(Snapshot()), k, default) && events == old(events) + [Added(k, default)])
    {
      if k !in store {
        var o := SetItem(k, default);
        if o.Fail? {
          return Failure(o.error);
        }
      }
      return Success(store[k]);
    }

    /** Takes `k` out, telling the remove hook; `k` must be present. */
    method Forget(k: K)
      requires Valid() && k in store
      modifies this
      ensures Valid() && initial == old(initial)
      ensures Snapshot() == Remove(old(Snapshot()), k).state
      ensures events == old(events) + Remove(old(Snapshot()), k).fired
    {
      RemoveFaithful(discriminator, Snapshot(), k);
      ReplayAppend(initial, events, [Removed(k, store[k])]);
      events := events + [Removed(k, store[k])];
      keys := Without(keys, k);
      store := store - {k};
    }

    /** `del d[k]`: KeyError when `k` is missing. */
    method Delete(k: K) returns (r: Outcome<DictError<K>>)
      requires Valid()
      modifies this
      ensures Valid() && initial == old(initial)
      ensures r == Remove(old(Snapshot()), k).outcome
      ensures Snapshot() == Remove(old(Snapshot()), k).state
      ensures events == old(events) + Remove(old(Snapshot()), k).fired
    {
      if k !in store {
        return Fail(KeyError(k));
      }
      Forget(k);
      return Pass;
    }

    /** `d.pop(k)` or `d.pop(k, default)`: the removed value, else the default, else KeyError. */
    method Pop(k: K, default: Option<V>) returns (r: Result<V, DictError<K>>)
      requires Valid()
      modifies this
      ensures Valid() && initial == old(initial)
      ensures k in old(store) ==> r == Success(old(store)[k])
      ensures k !in old(store) && default.Some? ==> r == Success(default.value)
      ensures k !in old(store) && default.None? ==> r == Failure(KeyError(k))
      ensures Snapshot() == Remove(old(Snapshot()), k).state
      ensures events == old(events) + Remove(old(Snapshot()), k).fired
    {
      if k in store {
        var v := store[k];
        Forget(k);
        return Success(v);
      }
      if default.Some? {
        return Success(default.value);
      }
      return Failure(KeyError(k));
    }

    /** `d.popitem()`: removes and returns the most recently inserted pair. */
    method PopItem() returns (r: Result<(K, V), DictError<K>>)
      requires Valid()
      modifies this
      ensures Valid() && initial == old(initial)
      ensures |old(keys)| == 0 <==> r.Failure?
      ensures r.Failure? ==> r.error == EmptyDictionary && Snapshot() == old(Snapshot()) && events == old(events)
      ensures r.Success? ==> r.value.0 == old(keys)[|old(keys)| - 1] && r.value.0 in old(store)
      ensures r.Success? ==> r.value.1 == old(store)[r.value.0]
      ensures r.Success? ==> Snapshot() == Remove(old(Snapshot()), r.value.0).state
      ensures r.Success? ==> events == old(events) + Remove(old(Snapshot()), r.value.0).fired
    {
      if |keys| == 0 {
        return Failure(EmptyDictionary);
      }
      var k := keys[|keys| - 1];
      var v := store[k];
      Forget(k);
      return Success((k, v));
    }

    /** `d.clear()`: the remove hook hears of every entry, in insertion order. */
    method Clear()
      requires Valid()
      modifies this
      ensures Valid() && initial == old(initial)
      ensures keys == [] && store == map[]
      ensures events == old(events) + Removals(old(keys), old(store))
    {
      var i := 0;
      while i < |keys|
        invariant 0 <= i <= |keys|
        invariant keys == old(keys) && store == old(store) && initial == old(initial)
        invariant events == old(events) + Removals(keys[..i], store)
      {
        assert keys[..i + 1] == keys[..i] + [keys[i]];
        assert Removals(keys[..i + 1], store) == Removals(keys[..i], store) + [Removed(keys[i], store[keys[i]])];
        events := events + [Removed(keys[i], store[keys[i]])];
        i := i + 1;
      }
      assert keys[..i] == keys;
      ReplayAppend(initial, old(events), Removals(keys, store));
      ReplayRemovals(store, keys, store);
      assert store - (set k | k in keys) == map[];
      keys, store := [], map[];
    }
  }
}
