/**
 * The Minecraft values litemapy handles (`litemapy.minecraft`): resource
 * identifiers, block states, and tile entities with their integer position.
 */
module Minecraft {
  import opened Wrappers
  import opened Nbt

  /** The exceptions raised here. */
  datatype MinecraftError =
    | InvalidIdentifier(id: string)   // an identifier not of the form `namespace:path`
    | KeyError(key: string)           // a required key is missing from a compound
    | WrongTagType(key: string)       // a key holds a tag of a kind that cannot be read

  // ===========================================================================
  // Identifiers

  /** Characters allowed in an identifier's namespace. */
  predicate NamespaceChar(c: char)
  {
    'a' <= c <= 'z' || '0' <= c <= '9' || c == '_' || c == '.' || c == '-'
  }

  /** Characters allowed in an identifier's path: those of a namespace, and `/`. */
  predicate PathChar(c: char)
  {
    NamespaceChar(c) || c == '/'
  }

  /** `is_valid_identifier(s)`: a left-to-right scan for `namespace:path`. */
  predicate IsValidIdentifier(s: string)
  {
    ScanNamespace(s, 0)
  }

  /** The scan inside the namespace, at position `i`. */
  predicate ScanNamespace(s: string, i: nat)
    decreases |s| - i
  {
    if i >= |s| then false
    else if s[i] == ':' then 0 < i && ScanPath(s, i + 1, i + 1)
    else NamespaceChar(s[i]) && ScanNamespace(s, i + 1)
  }

  /** The scan inside a path that began at `start`, at position `i`. */
  predicate ScanPath(s: string, start: nat, i: nat)
    decreases |s| - i
  {
    if i >= |s| then start < i
    else PathChar(s[i]) && ScanPath(s, start, i + 1)
  }

  /** The reference reading: a non-empty namespace, one colon, a non-empty path. */
  ghost predicate IdentifierAt(s: string, c: int)
  {
    && 0 < c < |s| - 1
    && s[c] == ':'
    && (forall j :: 0 <= j < c ==> NamespaceChar(s[j]))
    && (forall j :: c < j < |s| ==> PathChar(s[j]))
  }

  lemma {:induction false} ScanPathMeaning(s: string, start: nat, i: nat)
    requires start <= i <= |s|
    ensures ScanPath(s, start, i) <==> start < |s| && forall j :: i <= j < |s| ==> PathChar(s[j])
    decreases |s| - i
  {
    if i < |s| {
      ScanPathMeaning(s, start, i + 1);
    }
  }

  lemma {:induction false} ScanNamespaceMeaning(s: string, i: nat)
    requires i <= |s|
    requires forall j :: 0 <= j < i ==> NamespaceChar(s[j])
    ensures ScanNamespace(s, i) <==> exists c :: i <= c && IdentifierAt(s, c)
    decreases |s| - i
  {
    if i < |s| {
      if s[i] == ':' {
        ScanPathMeaning(s, i + 1, i + 1);
        if ScanNamespace(s, i) {
          assert IdentifierAt(s, i);
        }
        forall c | i <= c && IdentifierAt(s, c)
          ensures c == i
        {
        }
      } else if NamespaceChar(s[i]) {
        ScanNamespaceMeaning(s, i + 1);
        forall c | i <= c && IdentifierAt(s, c)
          ensures i + 1 <= c
        {
        }
      } else {
        forall c | i <= c
          ensures !IdentifierAt(s, c)
        {
        }
      }
    }
  }

  /** The scan accepts exactly the strings the reference reading describes. */
  lemma IdentifierMeaning(s: string)
    ensures IsValidIdentifier(s) <==> exists c :: IdentifierAt(s, c)
  {
    ScanNamespaceMeaning(s, 0);
  }

  /** A valid identifier has exactly one colon, so its namespace and path are determined. */
  lemma OneColon(s: string, c: int, c': int)
    requires IdentifierAt(s, c) && IdentifierAt(s, c')
    ensures c == c'
  {
  }

  // ===========================================================================
  // Block states

  /** A block identifier and its properties; equality and hashing are structural. */
  datatype BlockState = BlockState(id: string, properties: map<string, string>)

  /** `BlockState(id, **properties)`: InvalidIdentifier unless `id` is valid. */
  function NewBlockState(id: string, properties: map<string, string>): (r: Result<BlockState, MinecraftError>)
    ensures r.Success? <==> IsValidIdentifier(id)
    ensures r.Success? ==> r.value.id == id && r.value.properties == properties
    ensures r.Failure? ==> r.error == InvalidIdentifier(id)
  {
    if IsValidIdentifier(id) then Success(BlockState(id, properties)) else Failure(InvalidIdentifier(id))
  }

  /** `b.with_id(id)`: the same properties under another identifier, which must be valid. */
  function WithId(b: BlockState, id: string): (r: Result<BlockState, MinecraftError>)
    ensures r.Success? <==> IsValidIdentifier(id)
    ensures r.Success? ==> r.value.id == id && r.value.properties == b.properties
    ensures r.Failure? ==> r.error == InvalidIdentifier(id)
  {
    NewBlockState(id, b.properties)
  }

  /** `b.with_properties(**updates)`: a value of `None` removes the property, any other sets it. */
  function WithProperties(b: BlockState, updates: map<string, Option<string>>): (r: BlockState)
    ensures r.id == b.id
    ensures forall k :: k in updates && updates[k].None? ==> k !in r.properties
    ensures forall k :: k in updates && updates[k].Some? ==> k in r.properties && r.properties[k] == updates[k].value
    ensures forall k :: k !in updates ==> (k in r.properties <==> k in b.properties)
    ensures forall k :: k !in updates && k in b.properties ==> r.properties[k] == b.properties[k]
  {
    var kept := map k | k in b.properties && k !in updates :: b.properties[k];
    var set_ := map k | k in updates && updates[k].Some? :: updates[k].value;
    BlockState(b.id, kept + set_)
  }

  /** `b[k]` as `b.get(k)`: the value of property `k`, if any. */
  function Property(b: BlockState, k: string): (r: Option<string>)
    ensures r.Some? <==> k in b.properties
    ensures r.Some? ==> r.value == b.properties[k]
  {
    if k in b.properties then Some(b.properties[k]) else None
  }

  // --- Ordering property names -------------------------------------------------

  /** Strict lexicographic order on strings, by character code. */
  predicate LexLess(a: string, b: string)
  {
    if |a| == 0 then |b| > 0
    else if |b| == 0 then false
    else if a[0] != b[0] then a[0] < b[0]
    else LexLess(a[1..], b[1..])
  }

  lemma {:induction false} LexIrreflexive(a: string)
    ensures !LexLess(a, a)
  {
    if |a| > 0 {
      LexIrreflexive(a[1..]);
    }
  }

  lemma {:induction false} LexAsymmetric(a: string, b: string)
    requires LexLess(a, b)
    ensures !LexLess(b, a)
  {
    if |a| > 0 && |b| > 0 && a[0] == b[0] {
      LexAsymmetric(a[1..], b[1..]);
    }
  }

  lemma {:induction false} LexTransitive(a: string, b: string, c: string)
    requires LexLess(a, b) && LexLess(b, c)
    ensures LexLess(a, c)
  {
    if |a| > 0 && a[0] == b[0] && b[0] == c[0] {
      LexTransitive(a[1..], b[1..], c[1..]);
    }
  }

  lemma {:induction false} LexTotal(a: string, b: string)
    requires a != b
    ensures LexLess(a, b) || LexLess(b, a)
  {
    if |a| > 0 && |b| > 0 && a[0] == b[0] {
      assert a == [a[0]] + a[1..] && b == [b[0]] + b[1..];
      LexTotal(a[1..], b[1..]);
    }
  }

  /** `m` comes first among `ks`. */
  predicate IsLeast(m: string, ks: set<string>)
  {
    m in ks && forall k :: k in ks && k != m ==> LexLess(m, k)
  }

  /** The names are in strictly increasing order. */
  predicate SortedStrictly(names: seq<string>)
  {
    forall i, j :: 0 <= i < j < |names| ==> LexLess(names[i], names[j])
  }

  lemma {:induction false} LeastExists(ks: set<string>)
    requires ks != {}
    ensures exists m :: IsLeast(m, ks)
    decreases |ks|
  {
    var x :| x in ks;
    if ks == {x} {
      assert IsLeast(x, ks);
    } else {
      LeastExists(ks - {x});
      var m :| IsLeast(m, ks - {x});
      if LexLess(x, m) {
        forall k | k in ks && k != x
          ensures LexLess(x, k)
        {
          if k != m {
            LexTransitive(x, m, k);
          }
        }
        assert IsLeast(x, ks);
      } else {
        assert m != x;
        LexTotal(x, m);
        assert IsLeast(m, ks);
      }
    }
  }

  lemma LeastUnique(ks: set<string>, m: string, m': string)
    requires IsLeast(m, ks) && IsLeast(m', ks)
    ensures m == m'
  {
    if m != m' {
      LexAsymmetric(m, m');
    }
  }

  /** The names `ks` in increasing lexicographic order. */
  function SortedNames(ks: set<string>): (r: seq<string>)
    ensures |r| == |ks|
    ensures forall k :: k in r <==> k in ks
    ensures SortedStrictly(r)
    decreases |ks|
  {
    if ks == {} then []
    else
      LeastExists(ks);
      LeastUniqueAll(ks);
      var m :| IsLeast(m, ks);
      var rest := SortedNames(ks - {m});
      [m] + rest
  }

  lemma LeastUniqueAll(ks: set<string>)
    ensures forall m, m' :: IsLeast(m, ks) && IsLeast(m', ks) ==> m == m'
  {
    forall m, m' | IsLeast(m, ks) && IsLeast(m', ks)
      ensures m == m'
    {
      LeastUnique(ks, m, m');
    }
  }

  /** `b.properties()`: the (name, value) pairs in name order. */
  function PropertyList(b: BlockState): (r: seq<(string, string)>)
    ensures |r| == |b.properties.Keys|
    ensures forall i :: 0 <= i < |r| ==> r[i].0 in b.properties && r[i].1 == b.properties[r[i].0]
    ensures forall k :: k in b.properties ==> (k, b.properties[k]) in r
    ensures SortedStrictly(seq(|r|, i requires 0 <= i < |r| => r[i].0))
  {
    var names := SortedNames(b.properties.Keys);
    var r := seq(|names|, i requires 0 <= i < |names| => (names[i], b.properties[names[i]]));
    PairsCover(b.properties, names, r);
    assert seq(|r|, i requires 0 <= i < |r| => r[i].0) == names;
    r
  }

  lemma PairsCover(m: map<string, string>, names: seq<string>, r: seq<(string, string)>)
    requires forall k :: k in names <==> k in m
    requires |r| == |names| && forall i :: 0 <= i < |r| ==> r[i] == (names[i], m[names[i]])
    ensures forall k :: k in m ==> (k, m[k]) in r
  {
    forall k | k in m
      ensures (k, m[k]) in r
    {
      var i :| 0 <= i < |names| && names[i] == k;
      assert r[i] == (k, m[k]);
    }
  }

  /** A dictionary filled by assigning the pairs one after another. */
  function FromPairList(ps: seq<(string, string)>): map<string, string>
  {
    if |ps| == 0 then map[] else FromPairList(ps[..|ps| - 1])[ps[|ps| - 1].0 := ps[|ps| - 1].1]
  }

  /** Pairs all taken from `m` fill a dictionary that agrees with `m` and holds every listed name. */
  lemma {:induction false} FromPairListAgrees(m: map<string, string>, ps: seq<(string, string)>)
    requires forall i :: 0 <= i < |ps| ==> ps[i].0 in m && ps[i].1 == m[ps[i].0]
    ensures forall k :: k in FromPairList(ps) ==> k in m && FromPairList(ps)[k] == m[k]
    ensures forall i :: 0 <= i < |ps| ==> ps[i].0 in FromPairList(ps)
  {
    if |ps| > 0 {
      FromPairListAgrees(m, ps[..|ps| - 1]);
    }
  }

  /** Pairs taken from `m` and listing all of it rebuild `m`. */
  lemma RebuildsFrom(m: map<string, string>, ps: seq<(string, string)>)
    requires forall i :: 0 <= i < |ps| ==> ps[i].0 in m && ps[i].1 == m[ps[i].0]
    requires forall k :: k in m ==> (k, m[k]) in ps
    ensures FromPairList(ps) == m
  {
    var r := FromPairList(ps);
    FromPairListAgrees(m, ps);
    forall k | k in m
      ensures k in r
    {
      var i :| 0 <= i < |ps| && ps[i] == (k, m[k]);
    }
  }

  /** Rebuilding a dictionary from `b.properties()` gives back the properties. */
  lemma PropertyListRebuilds(b: BlockState)
    ensures FromPairList(PropertyList(b)) == b.properties
  {
    RebuildsFrom(b.properties, PropertyList(b));
  }

  /** `name=value` pairs joined by commas. */
  function JoinProperties(ps: seq<(string, string)>): string
  {
    if |ps| == 0 then ""
    else if |ps| == 1 then ps[0].0 + "=" + ps[0].1
    else ps[0].0 + "=" + ps[0].1 + "," + JoinProperties(ps[1..])
  }

  /** `b.to_block_state_identifier()`: `id`, then `[name=value,...]` in name order when there are properties. */
  function BlockStateIdentifier(b: BlockState): string
  {
    if |b.properties| == 0 then b.id else b.id + "[" + JoinProperties(PropertyList(b)) + "]"
  }

  /** The text of `s` before its first `d` (all of `s` when there is none). */
  function Before(s: string, d: char): (r: string)
    ensures |r| <= |s| && r == s[..|r|]
    ensures d !in r
    ensures d !in s ==> r == s
  {
    if |s| == 0 || s[0] == d then [] else [s[0]] + Before(s[1..], d)
  }

  /** The text of `s` after its first `d` (nothing when there is none). */
  function After(s: string, d: char): (r: string)
    ensures d in s ==> s == Before(s, d) + [d] + r
    ensures d !in s ==> r == []
  {
    if |s| == 0 then []
    else if s[0] == d then s[1..]
    else
      assert d in s ==> d in s[1..] by {
        if d in s {
          var j :| 0 <= j < |s| && s[j] == d;
          assert s[1..][j - 1] == d;
        }
      }
      assert s == [s[0]] + s[1..];
      After(s[1..], d)
  }

  lemma {:induction false} BeforeOfPrefix(p: string, t: string, d: char)
    requires d !in p && (|t| == 0 || t[0] == d)
    ensures Before(p + t, d) == p
  {
    if |p| > 0 {
      assert (p + t)[1..] == p[1..] + t;
      BeforeOfPrefix(p[1..], t, d);
    } else {
      assert p + t == t;
    }
  }

  /** Splitting `p + [d] + t` at its first `d` gives back `p` and `t`. */
  lemma SplitAtFirst(p: string, t: string, d: char)
    requires d !in p
    ensures Before(p + [d] + t, d) == p
    ensures After(p + [d] + t, d) == t
  {
    var s := p + [d] + t;
    assert s == p + ([d] + t);
    BeforeOfPrefix(p, [d] + t, d);
    assert s[|p|] == d;
    assert d in s;
    assert s == p + [d] + After(s, d);
    assert After(s, d) == s[|p| + 1..] == t;
  }

  /** Parses `name=value,name=value,...`: commas separate pairs, the first `=` of a pair its name from its value. */
  function ParsePairs(s: string): seq<(string, string)>
    decreases |s|
  {
    var item := Before(s, ',');
    var pair := (Before(item, '='), After(item, '='));
    if ',' in s then [pair] + ParsePairs(After(s, ',')) else [pair]
  }

  /** Reads a rendered block state identifier back: the id before `[`, the pairs between `[` and the closing `]`. */
  function ParseBlockStateIdentifier(s: string): BlockState
  {
    if '[' !in s then BlockState(s, map[])
    else
      var inner := After(s, '[');
      var body := if |inner| > 0 then inner[..|inner| - 1] else inner;
      BlockState(Before(s, '['), FromPairList(ParsePairs(body)))
  }

  /** No valid identifier contains `[`: properties can never be mistaken for part of it. */
  lemma NoBracket(s: string)
    requires IsValidIdentifier(s)
    ensures '[' !in s
  {
    IdentifierMeaning(s);
    var c :| IdentifierAt(s, c);
    forall j | 0 <= j < |s|
      ensures s[j] != '['
    {
      if j < c {
        assert NamespaceChar(s[j]);
      } else if j > c {
        assert PathChar(s[j]);
      }
    }
  }

  /** A pair the rendering can be read back from: no `,` or `=` in the name, no `,` in the value. */
  predicate PlainPair(p: (string, string))
  {
    ',' !in p.0 && '=' !in p.0 && ',' !in p.1
  }

  /** The text `name=value` of a pair holds no comma and splits back into the pair at its first `=`. */
  lemma PairText(p: (string, string))
    requires PlainPair(p)
    ensures ',' !in p.0 + "=" + p.1
    ensures Before(p.0 + "=" + p.1, '=') == p.0 && After(p.0 + "=" + p.1, '=') == p.1
  {
    SplitAtFirst(p.0, p.1, '=');
  }

  /** The last pair of the text: no comma left. */
  lemma ParseLast(item: string)
    requires ',' !in item
    ensures ParsePairs(item) == [(Before(item, '='), After(item, '='))]
  {
  }

  /** A pair followed by a comma and the rest of the text. */
  lemma ParseNext(item: string, rest: string)
    requires ',' !in item
    ensures ParsePairs(item + [','] + rest) == [(Before(item, '='), After(item, '='))] + ParsePairs(rest)
  {
    SplitAtFirst(item, rest, ',');
    assert ',' in item + [','] + rest by { assert (item + [','] + rest)[|item|] == ','; }
  }

  /** The text of a single pair is read back as that pair. */
  lemma ParseJoinOne(ps: seq<(string, string)>)
    requires |ps| == 1 && PlainPair(ps[0])
    ensures ParsePairs(JoinProperties(ps)) == ps
  {
    PairText(ps[0]);
    ParseLast(ps[0].0 + "=" + ps[0].1);
  }

  /** The first pair of the text is read back, followed by the reading of the rest. */
  lemma ParseJoinStep(ps: seq<(string, string)>)
    requires |ps| > 1 && PlainPair(ps[0])
    ensures ParsePairs(JoinProperties(ps)) == [ps[0]] + ParsePairs(JoinProperties(ps[1..]))
  {
    var item := ps[0].0 + "=" + ps[0].1;
    PairText(ps[0]);
    var rest := JoinProperties(ps[1..]);
    assert JoinProperties(ps) == item + [','] + rest;
    ParseNext(item, rest);
  }

  /** Pairs whose names and values do not contain the separators are read back from their joined text. */
  lemma {:induction false} ParseJoin(ps: seq<(string, string)>)
    requires |ps| >= 1 && forall i :: 0 <= i < |ps| ==> PlainPair(ps[i])
    ensures ParsePairs(JoinProperties(ps)) == ps
  {
    if |ps| == 1 {
      ParseJoinOne(ps);
    } else {
      ParseJoinStep(ps);
      assert forall i :: 0 <= i < |ps| - 1 ==> ps[1..][i] == ps[i + 1];
      ParseJoin(ps[1..]);
      assert ps == [ps[0]] + ps[1..];
    }
  }

  /** Property names and values without the separators of the rendering. */
  predicate PlainProperties(b: BlockState)
  {
    forall k | k in b.properties :: PlainPair((k, b.properties[k]))
  }

  /**
   * Reading the rendered identifier back gives the block state, whenever its
   * names and values do not contain the separators: the `[name=value,...]`
   * part lists exactly the properties.
   */
  lemma BlockStateIdentifierRoundTrip(b: BlockState)
    requires IsValidIdentifier(b.id) && PlainProperties(b)
    ensures ParseBlockStateIdentifier(BlockStateIdentifier(b)) == b
  {
    NoBracket(b.id);
    var s := BlockStateIdentifier(b);
    if |b.properties| == 0 {
      assert b.properties == map[];
    } else {
      var ps := PropertyList(b);
      var j := JoinProperties(ps);
      assert s == b.id + ['['] + (j + "]");
      SplitAtFirst(b.id, j + "]", '[');
      assert '[' in s by { assert s[|b.id|] == '['; }
      assert (j + "]")[..|j + "]"| - 1] == j;
      assert forall i :: 0 <= i < |ps| ==> PlainPair(ps[i]);
      ParseJoin(ps);
      PropertyListRebuilds(b);
    }
  }

  /** Two such block states with the same rendered identifier are equal. */
  lemma BlockStateIdentifierInjective(a: BlockState, b: BlockState)
    requires IsValidIdentifier(a.id) && PlainProperties(a)
    requires IsValidIdentifier(b.id) && PlainProperties(b)
    ensures BlockStateIdentifier(a) == BlockStateIdentifier(b) ==> a == b
  {
    BlockStateIdentifierRoundTrip(a);
    BlockStateIdentifierRoundTrip(b);
  }

  /** The rendered identifier gives back the block identifier: everything before its `[`. */
  lemma BlockStateIdentifierId(b: BlockState)
    requires IsValidIdentifier(b.id)
    ensures Before(BlockStateIdentifier(b), '[') == b.id
  {
    NoBracket(b.id);
    var r := BlockStateIdentifier(b);
    if |b.properties| == 0 {
      assert r == b.id + [];
      BeforeOfPrefix(b.id, [], '[');
    } else {
      var rest := "[" + JoinProperties(PropertyList(b)) + "]";
      assert r == b.id + rest;
      BeforeOfPrefix(b.id, rest, '[');
    }
  }

  // --- NBT ----------------------------------------------------------------------

  /** `b.to_nbt()`: `Name`, and `Properties` as a compound of strings when there are any. */
  function BlockStateToNbt(b: BlockState): (c: Compound)
    ensures "Name" in c && c["Name"] == String(b.id)
    ensures "Properties" in c <==> |b.properties| > 0
    ensures "Properties" in c ==> c["Properties"].Compound?
    ensures c.Keys <= {"Name", "Properties"}
  {
    var name := map["Name" := String(b.id)];
    if |b.properties| == 0 then name
    else name["Properties" := Compound(map k | k in b.properties :: String(b.properties[k]))]
  }

  /** Whether every tag of `c` is a string tag. */
  predicate AllStrings(c: Compound)
  {
    forall k | k in c :: c[k].String?
  }

  /** Whether `Properties` is absent, or a compound of string tags. */
  predicate PropertiesReadable(c: Compound)
  {
    "Properties" !in c || (c["Properties"].Compound? && AllStrings(c["Properties"].entries))
  }

  /**
   * `BlockState.from_nbt(c)`: `Name` must be a string holding a valid
   * identifier; `Properties`, when present, a compound of strings.
   */
  function BlockStateFromNbt(c: Compound): (r: Result<BlockState, MinecraftError>)
    ensures "Name" !in c ==> r == Failure(KeyError("Name"))
    ensures "Name" in c && !c["Name"].String? ==> r == Failure(WrongTagType("Name"))
    ensures "Name" in c && c["Name"].String? && !PropertiesReadable(c) ==> r == Failure(WrongTagType("Properties"))
    ensures "Name" in c && c["Name"].String? && PropertiesReadable(c) ==>
              (r.Success? <==> IsValidIdentifier(c["Name"].str))
    ensures "Name" in c && c["Name"].String? && PropertiesReadable(c) && !IsValidIdentifier(c["Name"].str) ==>
              r == Failure(InvalidIdentifier(c["Name"].str))
    ensures r.Success? ==> "Name" in c && c["Name"] == String(r.value.id) && IsValidIdentifier(r.value.id)
    ensures r.Success? && "Properties" !in c ==> r.value.properties == map[]
    ensures r.Success? && "Properties" in c ==>
              c["Properties"].Compound? && r.value.properties.Keys == c["Properties"].entries.Keys
              && forall k | k in r.value.properties :: c["Properties"].entries[k] == String(r.value.properties[k])
  {
    if "Name" !in c then Failure(KeyError("Name"))
    else if !c["Name"].String? then Failure(WrongTagType("Name"))
    else if "Properties" !in c then NewBlockState(c["Name"].str, map[])
    else if !PropertiesReadable(c) then Failure(WrongTagType("Properties"))
    else
      var ps := c["Properties"].entries;
      NewBlockState(c["Name"].str, map k | k in ps :: ps[k].str)
  }

  /** Writing a valid block state and reading it back gives the same block state. */
  lemma BlockStateRoundTrip(b: BlockState)
    requires IsValidIdentifier(b.id)
    ensures BlockStateFromNbt(BlockStateToNbt(b)) == Success(b)
  {
    var c := BlockStateToNbt(b);
    if |b.properties| > 0 {
      var ps := c["Properties"].entries;
      assert (map k | k in ps :: ps[k].str) == b.properties;
    } else {
      assert b.properties == map[];
    }
  }

  // ===========================================================================
  // Entities

  /**
   * An entity, kept as its NBT compound. Its position, rotation and motion
   * are floating-point lists and are not interpreted.
   */
  datatype Entity = Entity(data: Compound)

  // ===========================================================================
  // Tile entities

  /** The three position keys of a tile entity. */
  const POSITION_KEYS: seq<string> := ["x", "y", "z"]

  /** Coordinate `k` of `d`: the integer under `k`, or 0 when `d` has no `k`. */
  function Coordinate(d: Compound, k: string): (v: int)
    ensures k !in d ==> v == 0
    ensures k in d && IsInteger(d[k]) ==> v == IntegerValue(d[k])
  {
    if k in d && IsInteger(d[k]) then IntegerValue(d[k]) else 0
  }

  /** Whether the position keys that `d` has all hold integer tags. */
  predicate PositionReadable(d: Compound)
  {
    forall k | k in POSITION_KEYS && k in d :: IsInteger(d[k])
  }

  /** The first position key of `d` that holds something other than an integer. */
  function BadPositionKey(d: Compound): (r: Option<string>)
    ensures r.None? <==> PositionReadable(d)
    ensures r.Some? ==> r.value in POSITION_KEYS && r.value in d && !IsInteger(d[r.value])
  {
    if "x" in d && !IsInteger(d["x"]) then Some("x")
    else if "y" in d && !IsInteger(d["y"]) then Some("y")
    else if "z" in d && !IsInteger(d["z"]) then Some("z")
    else None
  }

  /** A block entity: its NBT compound, whose `x`, `y`, `z` give its position. */
  class TileEntity {
    var data: Compound

    ghost predicate Valid()
      reads this
    {
      PositionReadable(data)
    }

    /** `tile.position`: each coordinate independently defaults to 0. */
    function Position(): (int, int, int)
      reads this
    {
      (Coordinate(data, "x"), Coordinate(data, "y"), Coordinate(data, "z"))
    }

    constructor (d: Compound)
      requires PositionReadable(d)
      ensures Valid() && data == d
    {
      data := d;
    }

    /**
     * `TileEntity(nbt)` and `TileEntity.from_nbt(nbt)`: WrongTagType when a
     * position key holds a tag other than an integer tag.
     */
    static method FromNbt(d: Compound) returns (r: Result<TileEntity, MinecraftError>)
      ensures r.Success? <==> PositionReadable(d)
      ensures r.Success? ==> fresh(r.value) && r.value.Valid() && r.value.data == d
      ensures r.Failure? ==> r.error == WrongTagType(BadPositionKey(d).value)
    {
      var bad := BadPositionKey(d);
      if bad.Some? {
        return Failure(WrongTagType(bad.value));
      }
      var t := new TileEntity(d);
      return Success(t);
    }

    /** `tile.to_nbt()`: the compound as held; position keys it lacks are not written back. */
    method ToNbt() returns (d: Compound)
      requires Valid()
      ensures d == data
      ensures Coordinate(d, "x") == Position().0 && Coordinate(d, "y") == Position().1 && Coordinate(d, "z") == Position().2
    {
      return data;
    }

    /** `tile.position = p`: writes `x`, `y`, `z` as integer tags; the other keys are kept. */
    method SetPosition(p: (int, int, int))
      requires Valid()
      modifies this
      ensures Valid() && Position() == p
      ensures data == old(data)["x" := Int(p.0)]["y" := Int(p.1)]["z" := Int(p.2)]
      ensures forall k :: k !in POSITION_KEYS ==> (k in data <==> k in old(data))
      ensures forall k :: k !in POSITION_KEYS && k in old(data) ==> data[k] == old(data)[k]
    {
      data := data["x" := Int(p.0)]["y" := Int(p.1)]["z" := Int(p.2)];
    }

    /**
     * `tile.add_tag(k, t)`: stores `t` under `k`; a position key must get an
     * integer tag, and then only that coordinate changes.
     */
    method AddTag(k: string, t: Tag) returns (r: Outcome<MinecraftError>)
      requires Valid()
      modifies this
      ensures Valid()
      ensures k in POSITION_KEYS && !IsInteger(t) ==> r == Fail(WrongTagType(k)) && data == old(data)
      ensures !(k in POSITION_KEYS && !IsInteger(t)) ==> r == Pass && data == old(data)[k := t]
      ensures r.Pass? && k == "x" ==> Position() == (IntegerValue(t), old(Position()).1, old(Position()).2)
      ensures r.Pass? && k == "y" ==> Position() == (old(Position()).0, IntegerValue(t), old(Position()).2)
      ensures r.Pass? && k == "z" ==> Position() == (old(Position()).0, old(Position()).1, IntegerValue(t))
      ensures k !in POSITION_KEYS ==> Position() == old(Position())
    {
      if k in POSITION_KEYS && !IsInteger(t) {
        return Fail(WrongTagType(k));
      }
      data := data[k := t];
      return Pass;
    }

    /** `tile.get_tag(k)`: KeyError when `k` is absent. */
    method GetTag(k: string) returns (r: Result<Tag, MinecraftError>)
      ensures k in data ==> r == Success(data[k])
      ensures k !in data ==> r == Failure(KeyError(k))
    {
      if k in data {
        return Success(data[k]);
      }
      return Failure(KeyError(k));
    }

    /** `tile.data = d`: the position follows the new compound. */
    method SetData(d: Compound) returns (r: Outcome<MinecraftError>)
      requires Valid()
      modifies this
      ensures Valid()
      ensures PositionReadable(d) ==> r == Pass && data == d
      ensures !PositionReadable(d) ==> r == Fail(WrongTagType(BadPositionKey(d).value)) && data == old(data)
    {
      var bad := BadPositionKey(d);
      if bad.Some? {
        return Fail(WrongTagType(bad.value));
      }
      data := d;
      return Pass;
    }
  }
}
