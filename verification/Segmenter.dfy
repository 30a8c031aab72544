/** The word segmenter of ideographic text: an open-path list that stays one path long (chinese.c:94-135, 175-329). */
module Segmenter {
  import opened Order

  // ---------- Strings and the dictionary ----------

  type text = seq<nat>  // unicode characters, none of them 0

  predicate Clean(s: text) { forall i :: 0 <= i < |s| ==> s[i] != 0 }

  /** UdmUniStrCmp. */
  function Compare(a: text, b: text): int {
    if a == [] || b == [] then (if a == [] then 0 else a[0] as int) - (if b == [] then 0 else b[0])
    else if a[0] == b[0] then Compare(a[1..], b[1..])
    else (a[0] as int) - b[0]
  }

  datatype ChinaWord = ChinaWord(word: text, freq: nat)

  /** UDM_CHINALIST; hash holds for every first character how long its words can be. */
  datatype Dictionary = Dictionary(words: seq<ChinaWord>, total: nat, hash: seq<nat>)

  const HASH_SIZE := 65536

  function Frequencies(words: seq<ChinaWord>): nat {
    if words == [] then 0 else Frequencies(words[..|words| - 1]) + words[|words| - 1].freq
  }

  ghost predicate GoodDictionary(d: Dictionary) {
    d.total == Frequencies(d.words) && (|d.hash| == HASH_SIZE || (d.hash == [] && d.words == []))
  }

  /** The binary search of UdmChineseListFind between two bounds; -1 for none. */
  function Search(words: seq<ChinaWord>, word: text, low: int, high: int): (i: int)
    requires 0 <= low && high < |words|
    ensures -1 <= i < |words| && (i >= 0 ==> low <= i <= high && Compare(words[i].word, word) == 0)
    decreases high - low
  {
    if low > high then -1
    else
      var middle := (low + high) / 2;
      var c := Compare(words[middle].word, word);
      if c < 0 then Search(words, word, middle + 1, high)
      else if c > 0 then Search(words, word, low, middle - 1)
      else middle
  }

  function Find(words: seq<ChinaWord>, word: text): (i: int)
    ensures -1 <= i < |words|
  {
    Search(words, word, 0, |words| - 1)
  }

  /** UdmChineseListAdd: the word goes to the end, whether or not that keeps the order. */
  function Add(d: Dictionary, w: ChinaWord): Dictionary
    requires (|d.hash| == HASH_SIZE || d.hash == []) && w.word != []
  {
    var h := w.word[0] % HASH_SIZE;
    var hash := if d.hash == [] then seq(HASH_SIZE, _ => 0) else d.hash;
    Dictionary(d.words + [w], d.total + w.freq, if hash[h] < |w.word| then hash[h := |w.word|] else hash)
  }

  /** A word as a dictionary file has it. */
  predicate Real(w: ChinaWord) { w.word != [] && Clean(w.word) }

  /** cmpchinese; of words that are not real nothing is asked. */
  predicate WordLe(a: ChinaWord, b: ChinaWord) { !Real(a) || (Real(b) && Compare(a.word, b.word) <= 0) }

  lemma {:induction false} CompareIsTotal(a: text, b: text)
    ensures Compare(a, b) == -Compare(b, a)
  {
    if a != [] && b != [] && a[0] == b[0] { CompareIsTotal(a[1..], b[1..]); }
  }

  lemma {:induction false} CompareTransitive(a: text, b: text, c: text)
    requires Clean(a) && Clean(b) && Clean(c) && Compare(a, b) <= 0 && Compare(b, c) <= 0
    ensures Compare(a, c) <= 0
  {
    if a != [] && b != [] && c != [] && a[0] == b[0] == c[0] { CompareTransitive(a[1..], b[1..], c[1..]); }
  }

  lemma WordLeIsTotal()
    ensures TotalOrder(WordLe)
  {
    forall a: ChinaWord, b: ChinaWord ensures WordLe(a, b) || WordLe(b, a) { CompareIsTotal(a.word, b.word); }
    forall a: ChinaWord, b: ChinaWord, c: ChinaWord | WordLe(a, b) && WordLe(b, c) ensures WordLe(a, c) {
      if Real(a) { CompareTransitive(a.word, b.word, c.word); }
    }
  }

  /** The table of lengths bounds every word. */
  ghost predicate Bounded(d: Dictionary) {
    |d.hash| == HASH_SIZE && forall i :: 0 <= i < |d.words| ==>
      Real(d.words[i]) && |d.words[i].word| <= d.hash[d.words[i].word[0] % HASH_SIZE]
  }

  /** Adding a word keeps the table a bound, and the total the sum of the frequencies. */
  lemma AddKeeps(d: Dictionary, w: ChinaWord)
    requires Real(w) && (Bounded(d) || (d.words == [] && d.hash == [])) && d.total == Frequencies(d.words)
    ensures Bounded(Add(d, w)) && GoodDictionary(Add(d, w)) && Add(d, w).words == d.words + [w]
  {
    assert (d.words + [w])[..|d.words|] == d.words;
  }

  // ---------- One token ----------

  /** The lookup accepts the k characters from a position on. */
  predicate Accepts(words: seq<ChinaWord>, line: text, pos: nat, k: nat) {
    pos + k <= |line| && Find(words, line[pos..pos + k]) >= 0
  }

  /** How long the longest accepted prefix of a rest is, of length at most n; 0 for none. */
  function Longest(words: seq<ChinaWord>, line: text, pos: nat, n: nat): (i: nat)
    ensures i <= n && (i > 0 ==> Accepts(words, line, pos, i))
    ensures forall k: nat :: i < k <= n ==> !Accepts(words, line, pos, k)
  {
    if n == 0 || Accepts(words, line, pos, n) then n else Longest(words, line, pos, n - 1)
  }

  /** The bound on the next token. */
  function Bound(d: Dictionary, line: text, pos: nat): (n: nat)
    requires |d.hash| == HASH_SIZE && pos < |line|
    ensures 1 <= n <= |line| - pos
  {
    var h := d.hash[line[pos] % HASH_SIZE];
    var bound := if h == 0 then 1 else h;
    if bound + pos > |line| then |line| - pos else bound
  }

  /** A first character without words gets length 1. */
  function Marked(d: Dictionary, c: nat): Dictionary
    requires |d.hash| == HASH_SIZE
  {
    if d.hash[c % HASH_SIZE] == 0 then d.(hash := d.hash[c % HASH_SIZE := 1]) else d
  }

  datatype Token = Token(length: nat, freq: nat, dictionary: Dictionary)

  /** The longest prefix that is found, or else one character, which becomes a word. */
  function Pick(d: Dictionary, line: text, pos: nat): (t: Token)
    requires |d.hash| == HASH_SIZE && pos < |line|
    ensures 1 <= t.length <= |line| - pos && |t.dictionary.hash| == HASH_SIZE
  {
    var n := Longest(d.words, line, pos, Bound(d, line, pos));
    var d1 := Marked(d, line[pos]);
    if n == 0 then Token(1, 1, Add(d1, ChinaWord([line[pos]], 1)))
    else Token(n, d.words[Find(d.words, line[pos..pos + n])].freq, d1)
  }

  // ---------- The whole line ----------

  const SPACE := 32

  /** Of a line: its text with a space before every token, or a read before the start of an array. */
  datatype Outcome = Segmented(line: text) | OutOfBounds

  /** Greedy segmentation from a position on; a found word of frequency 0 loses the only open path. */
  function Greedy(d: Dictionary, line: text, pos: nat, done: text): Outcome
    requires |d.hash| == HASH_SIZE && pos <= |line|
    decreases |line| - pos
  {
    if pos == |line| then Segmented(done)
    else
      var t := Pick(d, line, pos);
      if t.freq == 0 then OutOfBounds
      else Greedy(t.dictionary, line, pos + t.length, done + [SPACE] + line[pos..pos + t.length])
  }

  /** The dictionary after the segmentation. */
  function GreedyDictionary(d: Dictionary, line: text, pos: nat): (r: Dictionary)
    requires |d.hash| == HASH_SIZE && pos <= |line|
    ensures |r.hash| == HASH_SIZE
    decreases |line| - pos
  {
    if pos == |line| then d
    else
      var t := Pick(d, line, pos);
      if t.freq == 0 then t.dictionary else GreedyDictionary(t.dictionary, line, pos + t.length)
  }

  /** Lines that start with an ASCII character are copied. */
  predicate Searched(d: Dictionary, line: text) { line != [] && line[0] >= 0x80 && |d.hash| == HASH_SIZE }

  function Segmentation(d: Dictionary, line: text): Outcome {
    if Searched(d, line) then Greedy(d, line, 0, []) else Segmented(line)
  }

  /** A line that starts with an ASCII character comes back as it is, whatever the dictionary. */
  lemma AsciiIsCopied(d: Dictionary, line: text)
    requires line == [] || line[0] <= 127
    ensures Segmentation(d, line) == Segmented(line)
  {
    hide Greedy;
  }

  class ChineseList {
    var words: seq<ChinaWord>
    var total: nat
    var hash: seq<nat>

    function State(): Dictionary
      reads this
    {
      Dictionary(words, total, hash)
    }

    constructor ()
      ensures State() == Dictionary([], 0, []) && GoodDictionary(State())
    {
      words, total, hash := [], 0, [];
    }

    /** UdmChineseListFind. */
    method FindWord(word: text) returns (i: int)
      ensures i == Find(words, word)
    {
      hide Compare;
      var low, high := 0, |words| - 1;
      while low <= high
        invariant 0 <= low && high < |words|
        invariant Search(words, word, low, high) == Find(words, word)
        decreases high - low
      {
        var middle := (low + high) / 2;
        var c := Compare(words[middle].word, word);
        if c < 0 { low := middle + 1; } else if c > 0 { high := middle - 1; } else { return middle; }
      }
      return -1;
    }

    /** UdmChineseListAdd. */
    method AddWord(w: ChinaWord)
      requires (|hash| == HASH_SIZE || hash == []) && w.word != []
      modifies this
      ensures State() == Add(old(State()), w)
    {
      if hash == [] { hash := seq(HASH_SIZE, _ => 0); }
      words := words + [w];
      total := total + w.freq;
      var h := w.word[0] % HASH_SIZE;
      if hash[h] < |w.word| { hash := hash[h := |w.word|]; }
    }

    /** UdmChineseListLoad without its file: every word is added, then the words are sorted. */
    method Load(ws: seq<ChinaWord>)
      requires words == [] && hash == [] && total == 0 && forall w :: w in ws ==> Real(w)
      modifies this
      ensures GoodDictionary(State()) && (ws != [] ==> Bounded(State()))
      ensures multiset(words) == multiset(ws) && Sorted(WordLe, words)
    {
      hide Add, Sort, Frequencies;
      NothingToAdd();
      assert ws[..0] == [];
      for i := 0 to |ws|
        invariant words == ws[..i] && total == Frequencies(words)
        invariant if i == 0 then hash == [] else Bounded(State())
      {
        AddKeeps(State(), ws[i]);
        AddWord(ws[i]);
        assert ws[..i + 1] == ws[..i] + [ws[i]];
      }
      assert ws[..|ws|] == ws;
      WordLeIsTotal();
      SortProperties(WordLe, words);
      SortedIsBounded(State(), Sort(WordLe, words));
      words := Sort(WordLe, words);
    }

    /** The do-while loop: from the bound down to the first length that is found. */
    method LongestFound(line: text, pos: nat) returns (i: nat, found: int)
      requires |hash| == HASH_SIZE && pos < |line| && hash[line[pos] % HASH_SIZE] != 0
      ensures i == Longest(words, line, pos, Bound(State(), line, pos))
      ensures i > 0 ==> pos + i <= |line| && found == Find(words, line[pos..pos + i])
    {
      hide Find;
      i := hash[line[pos] % HASH_SIZE];
      if i + pos > |line| { i := |line| - pos; }
      ghost var bound := i;
      i := i + 1;
      found := -1;
      while true
        invariant 1 <= i <= bound + 1
        invariant Longest(words, line, pos, i - 1) == Longest(words, line, pos, bound)
        decreases i
      {
        i := i - 1;
        found := FindWord(line[pos..pos + i]);
        if !(i >= 1 && found < 0) { break; }
      }
    }

    /** The token at a position, as Pick says; the dictionary may grow. */
    method NextToken(line: text, pos: nat) returns (n: nat, freq: nat)
      requires |hash| == HASH_SIZE && pos < |line|
      modifies this
      ensures Pick(old(State()), line, pos) == Token(n, freq, State())
    {
      hide Find, Longest;
      var h := line[pos] % HASH_SIZE;
      if hash[h] == 0 { hash := hash[h := 1]; }
      var found;
      n, found := LongestFound(line, pos);
      if n < 1 {
        var w := ChinaWord([line[pos]], 1);
        AddWord(w);
        n, freq := 1, w.freq;
      } else {
        freq := words[found].freq;
      }
    }
  }

  lemma NothingToAdd()
    ensures Frequencies([]) == 0
  {
  }

  function Less(b: seq<ChinaWord>, i: nat): (r: seq<ChinaWord>)
    requires i < |b|
    ensures |r| == |b| - 1
  {
    b[..i] + b[i + 1..]
  }

  lemma TakenOut(b: seq<ChinaWord>, i: nat)
    requires i < |b|
    ensures multiset(Less(b, i)) == multiset(b) - multiset{b[i]}
  {
    assert b == b[..i] + [b[i]] + b[i + 1..];
  }

  lemma {:induction false} FrequencyTakenOut(b: seq<ChinaWord>, i: nat)
    requires i < |b|
    ensures Frequencies(b) == Frequencies(Less(b, i)) + b[i].freq
    decreases |b|
  {
    var n := |b| - 1;
    if i == n {
      assert Less(b, i) == b[..n];
    } else {
      FrequencyTakenOut(b[..n], i);
      var r := Less(b, i);
      assert r[..|r| - 1] == Less(b[..n], i) && r[|r| - 1] == b[n];
    }
  }

  lemma {:induction false} FrequenciesOf(a: seq<ChinaWord>, b: seq<ChinaWord>)
    requires multiset(a) == multiset(b)
    ensures Frequencies(a) == Frequencies(b)
    decreases |a|
  {
    hide Frequencies, Less;
    if a == [] {
      assert |multiset(b)| == 0;
    } else {
      assert a[0] in multiset(b);
      var i :| 0 <= i < |b| && b[i] == a[0];
      TakenOut(a, 0);
      TakenOut(b, i);
      FrequencyTakenOut(a, 0);
      FrequencyTakenOut(b, i);
      FrequenciesOf(Less(a, 0), Less(b, i));
    }
  }

  lemma SortedIsBounded(d: Dictionary, words: seq<ChinaWord>)
    requires multiset(words) == multiset(d.words)
    ensures d.total == Frequencies(d.words) ==> d.total == Frequencies(words)
    ensures Bounded(d) ==> Bounded(d.(words := words))
    ensures d.words == [] ==> words == []
  {
    FrequenciesOf(words, d.words);
    if Bounded(d) {
      forall i | 0 <= i < |words|
        ensures Real(words[i]) && |words[i].word| <= d.hash[words[i].word[0] % HASH_SIZE]
      {
        assert words[i] in multiset(d.words);
        var j :| 0 <= j < |d.words| && d.words[j] == words[i];
      }
    }
  }

  // ---------- The list of open paths ----------

  /** The k-th id of a list, -1 behind its end. */
  function Id(path: seq<nat>, k: nat): int { if k < |path| then path[k] else -1 }

  /** The ids of path, without repetition, are linked through next, from top to -1. */
  ghost predicate Linked(top: int, next: seq<int>, path: seq<nat>) {
    && top == Id(path, 0)
    && (forall k: nat :: k < |path| ==> LinkAt(next, path, k))
    && (forall k, l :: 0 <= k < l < |path| ==> path[k] != path[l])
  }

  predicate LinkAt(next: seq<int>, path: seq<nat>, k: nat)
    requires k < |path|
  {
    path[k] < |next| && next[path[k]] == Id(path, k + 1)
  }

  /** The id before position k, or the first one. */
  function Father(path: seq<nat>, k: nat): int
    requires k <= |path|
  {
    if k == 0 then Id(path, 0) else path[k - 1]
  }

  function Skip(l: nat, k: nat): nat { if l < k then l else l + 1 }

  /** A list without its k-th id. */
  function Without(path: seq<nat>, k: nat): (r: seq<nat>)
    requires k < |path|
    ensures |r| == |path| - 1 && forall l: nat :: l < |r| ==> r[l] == path[Skip(l, k)]
  {
    path[..k] + path[k + 1..]
  }

  lemma UnlinkTop(top: int, next: seq<int>, path: seq<nat>)
    requires Linked(top, next, path) && path != []
    ensures path[0] < |next| && Linked(next[path[0]], next, path[1..])
  {
    assert LinkAt(next, path, 0);
    forall l: nat | l < |path| - 1 ensures LinkAt(next, path[1..], l) { assert LinkAt(next, path, l + 1); }
  }

  lemma Unlink(top: int, next: seq<int>, path: seq<nat>, k: nat)
    requires Linked(top, next, path) && 0 < k < |path| && path[k] < |next| && path[k - 1] < |next|
    ensures Linked(top, next[path[k - 1] := next[path[k]]], Without(path, k))
  {
    var path' := Without(path, k);
    var next' := next[path[k - 1] := next[path[k]]];
    assert LinkAt(next, path, k);
    forall l: nat | l < |path'| ensures LinkAt(next', path', l) {
      var m := Skip(l, k);
      assert path'[l] == path[m] && LinkAt(next, path, m);
      if m != k - 1 { assert path[m] != path[k - 1]; }
    }
    forall l: nat, m: nat | l < m < |path'| ensures path'[l] != path'[m] {
      assert path[Skip(l, k)] != path[Skip(m, k)];
    }
  }

  lemma InRange(top: int, next: seq<int>, path: seq<nat>, k: nat)
    requires Linked(top, next, path) && k < |path|
    ensures path[k] < |next| && (path[k] == top <==> k == 0) && top == path[0] < |next|
    ensures k > 0 ==> path[k - 1] < |next|
  {
    assert LinkAt(next, path, k) && LinkAt(next, path, 0);
    if k > 0 { assert LinkAt(next, path, k - 1); }
  }

  lemma Wider(top: int, next: seq<int>, path: seq<nat>)
    requires Linked(top, next, path)
    ensures Linked(top, next + [-1], path) && |next| !in path && (top == -1 <==> path == []) && top == Id(path, 0)
  {
    forall k: nat | k < |path|
      ensures LinkAt(next + [-1], path, k) && path[k] != |next|
    {
      assert LinkAt(next, path, k);
    }
  }

  lemma OnePath(next: seq<int>, id: nat)
    requires id < |next|
    ensures Linked(id, next[id := -1], [id])
  {
  }

  lemma LinkTop(top: int, next: seq<int>, path: seq<nat>, id: nat)
    requires Linked(top, next, path) && path != [] && path[0] < |next| && id < |next| && id !in path
    ensures Linked(id, next[id := next[path[0]]], path[0 := id])
  {
    var path', next' := path[0 := id], next[id := next[path[0]]];
    forall l: nat | l < |path'| ensures LinkAt(next', path', l) {
      assert LinkAt(next, path, l);
      if l > 0 { assert path'[l] == path[l] && path[l] in path; }
    }
    forall l | 0 < l < |path'| ensures path'[l] != id { assert path[l] in path; }
  }

  lemma LinkEnd(top: int, next: seq<int>, path: seq<nat>, at: nat, id: nat)
    requires Linked(top, next, path) && 1 <= at <= |path| && path[at - 1] < |next| && id < |next| && id !in path
    ensures Linked(top, next[path[at - 1] := id][id := -1], path[..at] + [id])
  {
    var path', next' := path[..at] + [id], next[path[at - 1] := id][id := -1];
    forall l: nat | l < at ensures path'[l] == path[l] && path[l] != id { assert path[l] in path; }
    forall l: nat | l < |path'| ensures LinkAt(next', path', l) {
      if l < at { assert LinkAt(next, path, l); }
      if l < at - 1 { assert path[l] != path[at - 1]; }
    }
  }

  /** The arrays of UdmSegmentProcess. */
  class OpenPaths {
    var top: int
    var next: seq<int>
    var position: seq<nat>
    var value: seq<nat>
    var result: seq<text>
    ghost var path: seq<nat>   // the ids on the list

    ghost predicate Valid()
      reads this
    {
      |next| == |position| == |value| == |result| && Linked(top, next, path)
    }

    /** The position of the k-th path on the list. */
    ghost function At(k: int): nat
      reads this
      requires 0 <= k < |path| && Valid()
    {
      assert LinkAt(next, path, k);
      position[path[k]]
    }

    /** The value of the k-th path on the list. */
    ghost function Worth(k: int): nat
      reads this
      requires 0 <= k < |path| && Valid()
    {
      assert LinkAt(next, path, k);
      value[path[k]]
    }

    /** The text of the k-th path on the list. */
    ghost function Text(k: int): text
      reads this
      requires 0 <= k < |path| && Valid()
    {
      assert LinkAt(next, path, k);
      result[path[k]]
    }

    constructor ()
      ensures Valid() && path == [0] && position == [0] && result == [[]]
    {
      top, next, position, value, result, path := 0, [-1], [0], [0], [[]], [0];
    }

    /** The first path that has not reached the end. */
    method FirstOpen(len: nat, ghost k: nat) returns (current: int, father: int)
      requires Valid() && k < |path| && At(k) < len && forall l :: 0 <= l < k ==> At(l) >= len
      ensures current == path[k] && father == Father(path, k)
    {
      current, father := top, top;
      ghost var at: nat := 0;
      assert LinkAt(next, path, at);
      while current != -1 && position[current] >= len
        invariant at <= k && current == path[at] && father == Father(path, at) && LinkAt(next, path, at)
        decreases k - at
      {
        assert At(at) >= len;
        father := current;
        current := next[current];
        at := at + 1;
        assert LinkAt(next, path, at);
      }
      assert At(at) < len;
    }

    /** That path is taken off the list. */
    method TakeFirstOpen(len: nat, ghost k: nat) returns (current: int)
      requires Valid() && k < |path| && At(k) < len && forall l :: 0 <= l < k ==> At(l) >= len
      modifies `top, `next, `path
      ensures Valid() && current == old(path[k]) && path == Without(old(path), k)
    {
      hide Linked;
      var father;
      current, father := FirstOpen(len, k);
      InRange(top, next, path, k);
      if current == top {
        UnlinkTop(top, next, path);
        assert Without(path, k) == path[1..];
        top := next[top];
      } else {
        Unlink(top, next, path, k);
        next := next[father := next[current]];
      }
      path := Without(path, k);
    }

    /** The first path on the list that has reached a position. */
    method FindDuplicate(p: nat) returns (iindex: int, father: int, ghost at: nat)
      requires Valid()
      ensures at <= |path| && iindex == Id(path, at) && father == Father(path, at)
      ensures (at < |path| ==> At(at) == p) && forall k :: 0 <= k < at ==> At(k) != p
    {
      iindex, father, at := top, top, 0;
      if path != [] { assert LinkAt(next, path, 0); }
      while iindex != -1 && position[iindex] != p
        invariant at <= |path| && iindex == Id(path, at) && father == Father(path, at)
        invariant at < |path| ==> LinkAt(next, path, at)
        invariant forall k :: 0 <= k < at ==> At(k) != p
        decreases |path| - at
      {
        father := iindex;
        iindex := next[iindex];
        at := at + 1;
        if at < |path| { assert LinkAt(next, path, at); }
      }
    }

    /**
     * A new path is put on the list, unless a path of its position and at least its value is there. After the scan
     * for it iindex is always -1, so the ordered insertion of the source puts the path at the end, behind father;
     * there it cuts off the path it replaces and all behind that one.
     */
    method Insert(p: nat, v: nat, r: text) returns (ghost at: nat)
      requires Valid()
      modifies this
      ensures Valid() && position == old(position) + [p] && value == old(value) + [v] && result == old(result) + [r]
      ensures at <= |old(path)| && (at < |old(path)| ==> old(At(at)) == p) && forall k :: 0 <= k < at ==>
          old(At(k)) != p
      ensures path == var id := old(|position|);
                      if at == |old(path)| then old(path) + [id]
                      else if old(Worth(at)) >= v then old(path)
                      else if at == 0 then old(path)[0 := id]
                      else old(path)[..at] + [id]
    {
      hide Linked;
      var nextid := |next|;
      var iindex, father;
      iindex, father, at := FindDuplicate(p);
      forall k | 0 <= k < at ensures old(At(k)) != p { assert At(k) == old(At(k)); }
      Wider(top, next, path);
      if at < |path| { InRange(top, next, path, at); }
      if at > 0 { InRange(top, next, path, at - 1); }
      next, position, value, result := next + [-1], position + [p], value + [v], result + [r];
      var needinsert := true;
      if iindex != -1 {
        if value[iindex] >= value[nextid] {
          needinsert := false;
        } else if top == iindex {
          LinkTop(top, next, path, nextid);
          next := next[nextid := next[iindex]];
          top := nextid;
          path := path[0 := nextid];
          needinsert := false;
        }
      }
      if needinsert {
        if top == -1 {
          OnePath(next, nextid);
          next := next[nextid := top];
          top := nextid;
          path := [nextid];
        } else {
          LinkEnd(top, next, path, at, nextid);
          next := next[father := nextid];
          next := next[nextid := -1];
          path := path[..at] + [nextid];
        }
      }
    }
  }

  // ---------- UdmSegmentProcess ----------

  lemma {:induction false} FrequencyIsInTotal(words: seq<ChinaWord>, i: nat)
    requires i < |words|
    ensures words[i].freq <= Frequencies(words)
  {
    if i < |words| - 1 { FrequencyIsInTotal(words[..|words| - 1], i); }
  }

  /** The dictionary stays consistent, and its total is at least the frequency of the token. */
  lemma PickIsGood(d: Dictionary, line: text, pos: nat)
    requires GoodDictionary(d) && |d.hash| == HASH_SIZE && pos < |line|
    ensures var t := Pick(d, line, pos); GoodDictionary(t.dictionary) && t.freq <= t.dictionary.total
  {
    hide Find, Longest;
    var n := Longest(d.words, line, pos, Bound(d, line, pos));
    if n == 0 {
      assert (d.words + [ChinaWord([line[pos]], 1)])[..|d.words|] == d.words;
    } else {
      FrequencyIsInTotal(d.words, Find(d.words, line[pos..pos + n]));
    }
  }

  lemma IsFull(d: Dictionary)
    requires GoodDictionary(d) && d.hash != []
    ensures |d.hash| == HASH_SIZE
  {
  }

  lemma NoPath(top: int, next: seq<int>, path: seq<nat>)
    requires Linked(top, next, path)
    ensures top == -1 <==> path == []
  {
  }

  lemma OnlyPath(top: int, next: seq<int>, path: seq<nat>)
    requires Linked(top, next, path) && |path| <= 1 && top != -1
    ensures path == [top] && 0 <= top < |next| && next[top] == -1
  {
    assert LinkAt(next, path, 0);
  }

  /**
   * UdmSegmentProcess. The list of open paths never holds more than one path, so the search is greedy; a found word of
   * frequency 0 leaves no path, and the result is read at index -1.
   */
  method SegmentProcess(list: ChineseList, line: text) returns (r: Outcome)
    requires GoodDictionary(list.State())
    modifies list
    ensures GoodDictionary(list.State()) && r == Segmentation(old(list.State()), line)
    ensures list.State() ==
            if Searched(old(list.State()), line) then GreedyDictionary(old(list.State()), line, 0)
                else old(list.State())
  {
    if line == [] || line[0] < 0x80 || list.hash == [] { return Segmented(line); }
    IsFull(list.State());
    r := SearchPaths(list, line);
  }

  /** The search loop. */
  method SearchPaths(list: ChineseList, line: text) returns (r: Outcome)
    requires GoodDictionary(list.State()) && |list.hash| == HASH_SIZE && line != []
    modifies list
    ensures GoodDictionary(list.State())
    ensures r == Greedy(old(list.State()), line, 0, []) && list.State() == GreedyDictionary(old(list.State()), line, 0)
  {
    hide Pick, Linked, GoodDictionary, OpenPaths.Worth;
    var len := |line|;
    var paths := new OpenPaths();
    ghost var d0 := list.State();
    NoPath(paths.top, paths.next, paths.path);
    OnlyPath(paths.top, paths.next, paths.path);
    while paths.top != -1 && !(paths.position[paths.top] >= len && paths.next[paths.top] == -1)
      invariant fresh(paths) && paths.Valid() && |paths.path| <= 1 && |list.hash| == HASH_SIZE
          && GoodDictionary(list.State())
      invariant paths.top == -1
          || (paths.path == [paths.top] && 0 <= paths.top < |paths.next| && paths.next[paths.top] == -1)
      invariant paths.path == [] ==>
          Greedy(d0, line, 0, []) == OutOfBounds && list.State() == GreedyDictionary(d0, line, 0)
      invariant paths.path != [] ==>
                  && paths.At(0) <= len
                  && Greedy(d0, line, 0, []) == Greedy(list.State(), line, paths.At(0), paths.Text(0))
                  && GreedyDictionary(d0, line, 0) == GreedyDictionary(list.State(), line, paths.At(0))
      decreases if paths.path == [] then 0 else len - paths.At(0) + 1
    {
      var current := paths.TakeFirstOpen(len, 0);
      var pos := paths.position[current];
      PickIsGood(list.State(), line, pos);
      var n, freq := list.NextToken(line, pos);
      if freq != 0 {
        var v, text' := paths.value[current] + freq / list.total, paths.result[current] + [SPACE] + line[pos..pos + n];
        ghost var at := paths.Insert(pos + n, v, text');
        NoPath(paths.top, paths.next, paths.path);
        OnlyPath(paths.top, paths.next, paths.path);
      } else {
        NoPath(paths.top, paths.next, paths.path);
      }
    }
    NoPath(paths.top, paths.next, paths.path);
    if paths.top == -1 { return OutOfBounds; }
    r := Segmented(paths.result[paths.top]);
  }

  // ---------- What a segmentation is ----------

  /** The tokens of a rest. */
  function Tokens(d: Dictionary, line: text, pos: nat): (ts: seq<text>)
    requires |d.hash| == HASH_SIZE && pos <= |line|
    decreases |line| - pos
  {
    if pos == |line| then []
    else
      var t := Pick(d, line, pos);
      [line[pos..pos + t.length]] + Tokens(t.dictionary, line, pos + t.length)
  }

  function Flat(ts: seq<text>): text { if ts == [] then [] else ts[0] + Flat(ts[1..]) }

  function Spaced(ts: seq<text>): text { if ts == [] then [] else [SPACE] + ts[0] + Spaced(ts[1..]) }

  /** The result is the tokens with a space before each, and together they are the line. */
  lemma {:induction false} GreedySpellsLine(d: Dictionary, line: text, pos: nat, done: text)
    requires |d.hash| == HASH_SIZE && pos <= |line|
    ensures Flat(Tokens(d, line, pos)) == line[pos..]
    ensures Greedy(d, line, pos, done) in {OutOfBounds, Segmented(done + Spaced(Tokens(d, line, pos)))}
    decreases |line| - pos
  {
    hide Pick, Flat, Spaced;
    if pos == |line| {
      NoTokens();
      assert done + [] == done;
    } else {
      var t := Pick(d, line, pos);
      var token, rest := line[pos..pos + t.length], Tokens(t.dictionary, line, pos + t.length);
      GreedySpellsLine(t.dictionary, line, pos + t.length, done + [SPACE] + token);
      FirstToken(token, rest, done);
      TokenOff(line, pos, pos + t.length);
    }
  }

  lemma NoTokens()
    ensures Flat([]) == [] && Spaced([]) == []
  {
  }

  lemma FirstToken(token: text, rest: seq<text>, done: text)
    ensures Flat([token] + rest) == token + Flat(rest)
    ensures done + [SPACE] + token + Spaced(rest) == done + Spaced([token] + rest)
  {
    assert ([token] + rest)[1..] == rest;
    assert done + [SPACE] + token + Spaced(rest) == done + ([SPACE] + token + Spaced(rest));
  }

  lemma TokenOff(line: text, i: nat, j: nat)
    requires i <= j <= |line|
    ensures line[i..j] + line[j..] == line[i..]
  {
  }

  function WithoutSpaces(s: text): text {
    if s == [] then [] else if s[0] == SPACE then WithoutSpaces(s[1..]) else [s[0]] + WithoutSpaces(s[1..])
  }

  lemma {:induction false} SpacesGo(a: text, b: text)
    requires SPACE !in a
    ensures WithoutSpaces(a + b) == a + WithoutSpaces(b)
  {
    if a == [] {
      assert a + b == b;
    } else {
      SpacesGo(a[1..], b);
      assert (a + b)[1..] == a[1..] + b;
      assert [a[0]] + (a[1..] + WithoutSpaces(b)) == a + WithoutSpaces(b);
    }
  }

  lemma SpaceGoes(s: text)
    ensures WithoutSpaces([SPACE] + s) == WithoutSpaces(s)
  {
    assert ([SPACE] + s)[1..] == s;
  }

  lemma {:induction false} SpacedWithoutSpaces(ts: seq<text>)
    requires SPACE !in Flat(ts)
    ensures WithoutSpaces(Spaced(ts)) == Flat(ts)
  {
    if ts == [] {
    } else {
      hide WithoutSpaces;
      assert forall c :: c in ts[0] || c in Flat(ts[1..]) ==> c in Flat(ts);
      SpacedWithoutSpaces(ts[1..]);
      SpacesGo(ts[0], Spaced(ts[1..]));
      assert Spaced(ts) == [SPACE] + (ts[0] + Spaced(ts[1..]));
      SpaceGoes(ts[0] + Spaced(ts[1..]));
    }
  }

  /** Removing the spaces gives back a line that has none. */
  lemma RemovingSpacesGivesLine(d: Dictionary, line: text, out: text)
    requires |d.hash| == HASH_SIZE && SPACE !in line && Greedy(d, line, 0, []) == Segmented(out)
    ensures WithoutSpaces(out) == line
  {
    GreedySpellsLine(d, line, 0, []);
    assert line[0..] == line;
    assert [] + Spaced(Tokens(d, line, 0)) == Spaced(Tokens(d, line, 0));
    SpacedWithoutSpaces(Tokens(d, line, 0));
  }

  /** No word of the dictionary has frequency 0. */
  ghost predicate Weighted(d: Dictionary) { forall i :: 0 <= i < |d.words| ==> d.words[i].freq > 0 }

  /** Then every line is segmented. */
  lemma {:induction false} WeightedSegments(d: Dictionary, line: text, pos: nat, done: text)
    requires |d.hash| == HASH_SIZE && pos <= |line| && Weighted(d)
    ensures Greedy(d, line, pos, done) != OutOfBounds
    decreases |line| - pos
  {
    hide Pick, Weighted;
    if pos < |line| {
      var t := Pick(d, line, pos);
      PickIsWeighted(d, line, pos);
      WeightedSegments(t.dictionary, line, pos + t.length, done + [SPACE] + line[pos..pos + t.length]);
    }
  }

  lemma PickIsWeighted(d: Dictionary, line: text, pos: nat)
    requires |d.hash| == HASH_SIZE && pos < |line| && Weighted(d)
    ensures Pick(d, line, pos).freq > 0 && Weighted(Pick(d, line, pos).dictionary)
  {
    hide Find, Longest;
  }

  // ---------- In a sorted dictionary ----------

  ghost predicate SortedWords(words: seq<ChinaWord>) {
    forall i, j :: 0 <= i < j < |words| ==>
      Compare(words[i].word, words[j].word) < 0 && Compare(words[j].word, words[i].word) > 0
  }

  /** A sorted list without repeated words is what the lookup needs. */
  lemma SortedIsStrict(words: seq<ChinaWord>)
    requires Sorted(WordLe, words) && (forall i :: 0 <= i < |words| ==> Real(words[i]))
    requires forall i, j :: 0 <= i < j < |words| ==> words[i].word != words[j].word
    ensures SortedWords(words)
  {
    forall i, j | 0 <= i < j < |words|
      ensures Compare(words[i].word, words[j].word) < 0 && Compare(words[j].word, words[i].word) > 0
    {
      assert WordLe(words[i], words[j]);
      CompareZero(words[i].word, words[j].word);
      CompareIsTotal(words[i].word, words[j].word);
    }
  }

  lemma {:induction false} CompareZero(a: text, b: text)
    requires Clean(a) && Clean(b)
    ensures Compare(a, b) == 0 <==> a == b
  {
    if a != [] && b != [] && a[0] == b[0] {
      CompareZero(a[1..], b[1..]);
      if a[1..] == b[1..] { assert a == [a[0]] + a[1..] && b == [b[0]] + b[1..]; }
    }
  }

  lemma {:induction false} CompareSelf(a: text)
    ensures Compare(a, a) == 0
  {
    if a == [] {
    } else {
      CompareSelf(a[1..]);
    }
  }

  lemma SortedAt(words: seq<ChinaWord>, i: nat, j: nat)
    requires SortedWords(words) && i < |words| && j < |words|
    ensures i < j ==> Compare(words[i].word, words[j].word) < 0
    ensures j < i ==> Compare(words[i].word, words[j].word) > 0
  {
    hide Compare;
  }

  lemma {:induction false} SearchFinds(words: seq<ChinaWord>, m: nat, low: int, high: int)
    requires SortedWords(words) && 0 <= low <= m <= high < |words|
    ensures Search(words, words[m].word, low, high) >= 0
    decreases high - low
  {
    hide Compare, SortedWords;
    CompareSelf(words[m].word);
    var middle := (low + high) / 2;
    SortedAt(words, middle, m);
    if middle < m {
      SearchFinds(words, m, middle + 1, high);
    } else if middle > m {
      SearchFinds(words, m, low, middle - 1);
    }
  }

  ghost predicate HasWord(words: seq<ChinaWord>, w: text) { exists i :: 0 <= i < |words| && words[i].word == w }

  /** In a sorted dictionary the lookup accepts exactly the words. */
  lemma FindIsMembership(words: seq<ChinaWord>, w: text)
    requires SortedWords(words) && Clean(w) && forall i :: 0 <= i < |words| ==> Clean(words[i].word)
    ensures Find(words, w) >= 0 <==> HasWord(words, w)
  {
    if HasWord(words, w) {
      var m: nat :| m < |words| && words[m].word == w;
      SearchFinds(words, m, 0, |words| - 1);
    }
    var i := Find(words, w);
    if i >= 0 { CompareZero(words[i].word, w); }
  }

  /** From a sorted dictionary the token is the longest word that the rest starts with, or one character. */
  lemma PickIsLongestWord(d: Dictionary, line: text, pos: nat, k: nat)
    requires SortedWords(d.words) && Bounded(d) && Clean(line) && pos < |line| && 1 <= k && pos + k <= |line|
    ensures var n := Pick(d, line, pos).length; HasWord(d.words, line[pos..pos + k]) ==>
        k <= n && HasWord(d.words, line[pos..pos + n])
    ensures Pick(d, line, pos).length > 1 ==> HasWord(d.words, line[pos..pos + Pick(d, line, pos).length])
  {
    hide Find, Longest;
    var m := Longest(d.words, line, pos, Bound(d, line, pos));
    FindIsMembership(d.words, line[pos..pos + k]);
    if m > 0 { FindIsMembership(d.words, line[pos..pos + m]); }
    if HasWord(d.words, line[pos..pos + k]) {
      var i: nat :| i < |d.words| && d.words[i].word == line[pos..pos + k];
      assert d.words[i].word[0] == line[pos];
      assert k <= Bound(d, line, pos) && Accepts(d.words, line, pos, k);
    }
  }

  lemma SameWordSameIndex(words: seq<ChinaWord>, i: nat, j: nat)
    requires SortedWords(words) && i < |words| && j < |words| && words[i].word == words[j].word
    ensures i == j
  {
    CompareSelf(words[i].word);
  }

  /** Where the rest of the line is a word of frequency 0, the segmentation fails. */
  lemma ZeroFrequencyFails(d: Dictionary, i: nat, line: text, pos: nat, done: text)
    requires SortedWords(d.words) && Bounded(d) && i < |d.words| && d.words[i].freq == 0
    requires pos <= |line| && line[pos..] == d.words[i].word && Clean(line)
    ensures Greedy(d, line, pos, done) == OutOfBounds
  {
    hide Find, Compare, Bound;
    var w := d.words[i].word;
    assert pos < |line| && line[pos..pos + |w|] == w;
    PickIsLongestWord(d, line, pos, |w|);
    FindIsMembership(d.words, w);
    FoundIsWord(d.words, w, i);
    LongestWhole(d, line, pos);
  }

  lemma FoundIsWord(words: seq<ChinaWord>, w: text, i: nat)
    requires SortedWords(words) && Clean(w) && i < |words| && words[i].word == w && Find(words, w) >= 0
    requires forall k :: 0 <= k < |words| ==> Clean(words[k].word)
    ensures Find(words, w) == i
  {
    var j := Find(words, w);
    CompareZero(words[j].word, w);
    SameWordSameIndex(words, i, j);
  }

  lemma LongestWhole(d: Dictionary, line: text, pos: nat)
    requires |d.hash| == HASH_SIZE && pos < |line| && Find(d.words, line[pos..]) >= 0
    requires Pick(d, line, pos).length == |line| - pos
    ensures Pick(d, line, pos).freq == d.words[Find(d.words, line[pos..])].freq
  {
    hide Find;
    assert line[pos..pos + (|line| - pos)] == line[pos..];
    assert Accepts(d.words, line, pos, |line| - pos);
  }

  /** A character outside ASCII that is larger than all first characters of words. */
  function Larger(words: seq<ChinaWord>): (c: nat)
    ensures c >= 0x80 && forall i :: 0 <= i < |words| && words[i].word != [] ==> words[i].word[0] < c
  {
    if words == [] then 0x80
    else
      var c, last := Larger(words[..|words| - 1]), words[|words| - 1].word;
      if last != [] && c <= last[0] then last[0] + 1 else c
  }

  /** Such a character becomes a token and the last word of the dictionary, which stays sorted. */
  lemma LargerIsAdded(d: Dictionary, line: text)
    requires SortedWords(d.words) && Bounded(d) && Clean(line) && line != [] && line[0] == Larger(d.words)
    ensures var t := Pick(d, line, 0);
            && t.length == 1 && t.freq == 1 && SortedWords(t.dictionary.words) && Bounded(t.dictionary)
            && t.dictionary.words == d.words + [ChinaWord([line[0]], 1)]
  {
    hide Find, Compare, Bound, Longest;
    var n := Longest(d.words, line, 0, Bound(d, line, 0));
    if n > 0 {
      FindIsMembership(d.words, line[0..0 + n]);
      PrefixStarts(line, n);
    }
    var words := d.words + [ChinaWord([line[0]], 1)];
    forall i: nat, j: nat | i < j < |words|
      ensures Compare(words[i].word, words[j].word) < 0 && Compare(words[j].word, words[i].word) > 0
    {
      if j == |d.words| { SmallerFirst(words[i].word, words[j].word); }
    }
  }

  lemma PrefixStarts(line: text, n: nat)
    requires 0 < n <= |line|
    ensures line[0..0 + n][0] == line[0]
  {
  }

  lemma SmallerFirst(a: text, b: text)
    requires a != [] && b != [] && a[0] < b[0]
    ensures Compare(a, b) < 0 && Compare(b, a) > 0
  {
  }

  /** Every line is segmented if and only if no word of the dictionary has frequency 0. */
  lemma SegmentsEveryLineIff(d: Dictionary)
    requires SortedWords(d.words) && Bounded(d)
    ensures (forall line: text :: Clean(line) ==> Segmentation(d, line) != OutOfBounds) <==> Weighted(d)
  {
    hide Greedy, SortedWords;
    if Weighted(d) {
      forall line: text ensures Segmentation(d, line) != OutOfBounds {
        if Searched(d, line) { WeightedSegments(d, line, 0, []); }
      }
    } else {
      var i: nat :| i < |d.words| && d.words[i].freq == 0;
      var line := FailingLine(d, i);
    }
  }

  /** The line that fails: the word of frequency 0, behind such a character if the word starts in ASCII. */
  lemma FailingLine(d: Dictionary, i: nat) returns (line: text)
    requires SortedWords(d.words) && Bounded(d) && i < |d.words| && d.words[i].freq == 0
    ensures Clean(line) && Segmentation(d, line) == OutOfBounds
  {
    hide Greedy, SortedWords, Pick;
    var w, c := d.words[i].word, Larger(d.words);
    if w[0] >= 0x80 {
      line := w;
      assert line[0..] == w;
      ZeroFrequencyFails(d, i, line, 0, []);
    } else {
      line := [c] + w;
      LargerIsAdded(d, line);
      var t := Pick(d, line, 0);
      assert t.dictionary.words[i] == d.words[i] && line[1..] == w;
      ZeroFrequencyFails(t.dictionary, i, line, 1, [] + [SPACE] + line[0..0 + 1]);
      GreedyStep(d, line, 0, []);
    }
  }

  lemma GreedyStep(d: Dictionary, line: text, pos: nat, done: text)
    requires |d.hash| == HASH_SIZE && pos < |line| && Pick(d, line, pos).freq != 0
    ensures var t := Pick(d, line, pos);
            Greedy(d, line, pos, done) ==
              Greedy(t.dictionary, line, pos + t.length, done + [SPACE] + line[pos..pos + t.length])
  {
    hide Pick;
  }
}
