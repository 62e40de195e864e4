/** Normalising paths (src/common-ssh/sftp.c) and the truncating string functions
    it uses (src/libguac/string.c). */
module Paths {
  import opened Basics
  import opened Unicode

  type Text = seq<Octet>

  const MAX_PATH: nat := 2048
  const MAX_DEPTH: nat := 1024
  const SLASH: Octet := 47
  const BACKSLASH: Octet := 92
  const DOT: Octet := 46

  predicate IsSeparator(c: Byte) { c == SLASH || c == BACKSLASH }

  // --------------------------------------------------------------- the meaning

  /** The components of a path, between its separators. */
  function Split(s: Text): (r: seq<Text>)
    ensures |r| >= 1
  {
    if s == [] then [[]]
    else
      var r, c := Split(s[..|s| - 1]), s[|s| - 1];
      if IsSeparator(c) then r + [[]] else r[|r| - 1 := r[|r| - 1] + [c]]
  }

  /** Following one component from the directory the stack names. */
  function Follow(stack: seq<Text>, component: Text): seq<Text> {
    if component == [DOT, DOT] then if stack == [] then [] else stack[..|stack| - 1]
    else if component == [DOT] || component == [] then stack
    else stack + [component]
  }

  function Evaluate(components: seq<Text>): seq<Text> {
    if components == [] then []
    else Follow(Evaluate(components[..|components| - 1]), components[|components| - 1])
  }

  function Join(elements: seq<Text>, delim: Text): Text {
    if elements == [] then []
    else if |elements| == 1 then elements[0]
    else Join(elements[..|elements| - 1], delim) + delim + elements[|elements| - 1]
  }

  function PathOf(stack: seq<Text>): Text { [SLASH] + Join(stack, [SLASH]) }

  predicate IsAbsolute(path: Text) { path != [] && IsSeparator(path[0]) }

  /** The normal form of an absolute path. */
  function NormalPath(path: Text): Text
    requires IsAbsolute(path)
  {
    PathOf(Evaluate(Split(path[1..])))
  }

  // ----------------------------------------------------- what a normal path is

  /** A component that names an entry of a directory. */
  predicate IsName(c: Text) {
    c != [] && c != [DOT] && c != [DOT, DOT] && forall i :: 0 <= i < |c| ==> !IsSeparator(c[i])
  }

  predicate AllNames(stack: seq<Text>) {
    forall i :: 0 <= i < |stack| ==> IsName(stack[i])
  }

  predicate Unseparated(components: seq<Text>) {
    forall i :: 0 <= i < |components| ==> forall k :: 0 <= k < |components[i]| ==> !IsSeparator(components[i][k])
  }

  lemma {:induction false} SplitIsUnseparated(s: Text)
    ensures Unseparated(Split(s))
  {
    if s != [] {
      SplitIsUnseparated(s[..|s| - 1]);
    }
  }

  lemma {:induction false} EvaluateGivesNames(components: seq<Text>)
    requires Unseparated(components)
    ensures AllNames(Evaluate(components))
  {
    if components != [] {
      EvaluateGivesNames(components[..|components| - 1]);
    }
  }

  lemma EvaluateName(stack: seq<Text>, n: nat)
    requires |stack| == n + 1 && IsName(stack[n])
    ensures Evaluate(stack) == Evaluate(stack[..n]) + [stack[n]]
  {
  }

  lemma {:induction false} NamesEvaluateToThemselves(stack: seq<Text>)
    requires AllNames(stack)
    ensures Evaluate(stack) == stack
  {
    if stack != [] {
      hide Evaluate, IsName;
      var n := |stack| - 1;
      NamesEvaluateToThemselves(stack[..n]);
      EvaluateName(stack, n);
      assert stack == stack[..n] + [stack[n]];
    }
  }

  lemma {:induction false} SplitWord(s: Text, word: Text)
    requires forall k :: 0 <= k < |word| ==> !IsSeparator(word[k])
    ensures var r := Split(s); Split(s + word) == r[|r| - 1 := r[|r| - 1] + word]
    decreases |word|
  {
    if word == [] {
      var r := Split(s);
      assert s + word == s && r[|r| - 1] + word == r[|r| - 1];
    } else {
      var n := |word| - 1;
      SplitWord(s, word[..n]);
      assert (s + word)[..|s + word| - 1] == s + word[..n];
      var r := Split(s);
      var last := r[|r| - 1];
      assert last + word[..n] + [word[n]] == last + word;
      assert Split(s + word) == r[|r| - 1 := last + word[..n]][|r| - 1 := last + word[..n] + [word[n]]];
    }
  }

  lemma SplitNothing()
    ensures Split([]) == [[]]
  {
  }

  lemma SplitSlash(s: Text)
    ensures Split(s + [SLASH]) == Split(s) + [[]]
  {
    assert (s + [SLASH])[..|s|] == s;
  }

  /** Splitting undoes joining. */
  lemma {:induction false} SplitOfJoin(stack: seq<Text>)
    requires AllNames(stack) && stack != []
    ensures Split(Join(stack, [SLASH])) == stack
  {
    hide Split;
    var n := |stack| - 1;
    if n == 0 {
      SplitNothing();
      SplitWord([], stack[0]);
      assert [] + stack[0] == stack[0];
    } else {
      var front := Join(stack[..n], [SLASH]);
      SplitOfJoin(stack[..n]);
      SplitSlash(front);
      SplitWord(front + [SLASH], stack[n]);
      var r := stack[..n] + [[]];
      assert Split(front + [SLASH] + stack[n]) == r[n := [] + stack[n]];
      assert [] + stack[n] == stack[n];
      assert stack == stack[..n] + [stack[n]];
    }
  }

  lemma Nothing()
    ensures Join([], [SLASH]) == [] && Split([]) == [[]] && Evaluate([[]]) == []
  {
  }

  /** A normal path is its own normal form. */
  lemma NormalIsStable(stack: seq<Text>)
    requires AllNames(stack)
    ensures IsAbsolute(PathOf(stack)) && NormalPath(PathOf(stack)) == PathOf(stack)
  {
    hide Split, Evaluate, Join, IsName;
    var joined := Join(stack, [SLASH]);
    assert PathOf(stack)[1..] == joined;
    if stack == [] {
      Nothing();
    } else {
      SplitOfJoin(stack);
      NamesEvaluateToThemselves(stack);
    }
  }

  /** Normalising gives an absolute path whose components are all names, and
      normalising again changes nothing. */
  lemma NormalPathIsNormal(path: Text)
    requires IsAbsolute(path)
    ensures var normal := NormalPath(path);
            && (exists stack :: AllNames(stack) && normal == PathOf(stack))
            && IsAbsolute(normal) && NormalPath(normal) == normal
  {
    hide Split, Evaluate, IsName, Unseparated;
    var components := Split(path[1..]);
    SplitIsUnseparated(path[1..]);
    EvaluateGivesNames(components);
    NormalIsStable(Evaluate(components));
  }

  // ------------------------------------------------------- laws of normal paths

  lemma {:induction false} EvaluateJoin(a: seq<Text>, b: seq<Text>, z: seq<Text>)
    requires Evaluate(a) == Evaluate(b)
    ensures Evaluate(a + z) == Evaluate(b + z)
    decreases |z|
  {
    if z == [] {
      assert a + z == a && b + z == b;
    } else {
      var n := |z| - 1;
      EvaluateJoin(a, b, z[..n]);
      assert (a + z)[..|a + z| - 1] == a + z[..n] && (b + z)[..|b + z| - 1] == b + z[..n];
    }
  }

  lemma SplitSnoc(s: Text, c: Octet)
    ensures var r := Split(s); Split(s + [c]) == if IsSeparator(c) then r + [[]] else r[|r| - 1 := r[|r| - 1] + [c]]
  {
    assert (s + [c])[..|s|] == s;
  }

  lemma LastOfJoin<T>(a: seq<T>, b: seq<T>, x: T)
    requires b != []
    ensures a + b + [x] == a + (b + [x])
    ensures (a + b)[|a + b| - 1] == b[|b| - 1] && (a + b)[|a + b| - 1 := x] == a + b[|b| - 1 := x]
  {
  }

  lemma {:induction false} SplitJoin(p: Text, separator: Octet, q: Text)
    requires IsSeparator(separator)
    ensures Split(p + [separator] + q) == Split(p) + Split(q)
    decreases |q|
  {
    hide Split;
    if q == [] {
      SplitNothing();
      SplitSnoc(p, separator);
      assert p + [separator] + q == p + [separator];
    } else {
      var n := |q| - 1;
      var front, r := p + [separator] + q[..n], Split(q[..n]);
      SplitJoin(p, separator, q[..n]);
      SplitSnoc(front, q[n]);
      SplitSnoc(q[..n], q[n]);
      assert q[..n] + [q[n]] == q && front + [q[n]] == p + [separator] + q;
      LastOfJoin(Split(p), r, if IsSeparator(q[n]) then [] else r[|r| - 1] + [q[n]]);
    }
  }

  lemma SplitPlain(word: Text)
    requires forall k :: 0 <= k < |word| ==> !IsSeparator(word[k])
    ensures Split(word) == [word]
  {
    SplitNothing();
    SplitWord([], word);
    assert [] + word == word;
  }

  /** The rest of a path: nothing, or a separator and more. */
  predicate IsRest(q: Text) { q == [] || IsSeparator(q[0]) }

  /** Its components, each taken from its separator on. */
  function RestComponents(q: Text): seq<Text>
    requires IsRest(q)
  {
    if q == [] then [] else Split(q[1..])
  }

  lemma SplitRest(p: Text, q: Text)
    requires IsRest(q)
    ensures Split(p + q) == Split(p) + RestComponents(q)
  {
    if q == [] {
      assert p + q == p;
    } else {
      SplitJoin(p, q[0], q[1..]);
      assert p + q == p + [q[0]] + q[1..];
    }
  }

  /** A path that is extended by a component and then by a rest. */
  lemma EvaluateThrough(p: Text, separator: Octet, word: Text, q: Text)
    requires IsRest(p) && IsSeparator(separator) && IsRest(q) && forall k :: 0 <= k < |word| ==> !IsSeparator(word[k])
    ensures IsRest(p + [separator] + word + q)
    ensures RestComponents(p + [separator] + word + q) == RestComponents(p) + [word] + RestComponents(q)
  {
    hide Split;
    SplitPlain(word);
    if p == [] {
      assert ([] + [separator] + word + q)[1..] == word + q;
      SplitRest(word, q);
    } else {
      var p' := p[1..];
      assert (p + [separator] + word + q)[1..] == p' + [separator] + word + q;
      SplitRest(p' + [separator] + word, q);
      SplitJoin(p', separator, word);
    }
  }

  lemma NormalOfRest(path: Text)
    requires IsAbsolute(path)
    ensures IsRest(path) && NormalPath(path) == PathOf(Evaluate(RestComponents(path)))
  {
  }

  lemma EvaluateLast(components: seq<Text>, c: Text)
    ensures Evaluate(components + [c]) == Follow(Evaluate(components), c)
  {
    assert (components + [c])[..|components|] == components;
  }

  lemma RestJoin(p: Text, q: Text)
    requires IsRest(p) && IsRest(q)
    ensures IsRest(p + q) && RestComponents(p + q) == RestComponents(p) + RestComponents(q)
  {
    hide Split;
    if p == [] {
      assert p + q == q;
    } else {
      assert (p + q)[1..] == p[1..] + q;
      SplitRest(p[1..], q);
    }
  }

  /** A component can be dropped where it changes nothing. */
  lemma DropWord(p: Text, separator: Octet, word: Text, q: Text)
    requires IsRest(p) && IsSeparator(separator) && IsRest(q) && p + q != []
    requires word in [[], [DOT]] || (word == [DOT, DOT] && Evaluate(RestComponents(p)) == [])
    ensures IsAbsolute(p + q) && IsAbsolute(p + [separator] + word + q)
    ensures NormalPath(p + [separator] + word + q) == NormalPath(p + q)
  {
    hide Split, Evaluate, RestComponents, PathOf;
    EvaluateThrough(p, separator, word, q);
    NormalOfRest(p + [separator] + word + q);
    NormalOfRest(p + q);
    RestJoin(p, q);
    EvaluateLast(RestComponents(p), word);
    EvaluateJoin(RestComponents(p) + [word], RestComponents(p), RestComponents(q));
  }

  /** "/." and doubled separators may be dropped, anywhere in a path. */
  lemma DotIsDropped(p: Text, separator: Octet, q: Text)
    requires IsRest(p) && IsSeparator(separator) && IsRest(q) && p + q != []
    ensures IsAbsolute(p + q)
    ensures NormalPath(p + [separator, DOT] + q) == NormalPath(p + q)
    ensures NormalPath(p + [separator] + q) == NormalPath(p + q)
  {
    hide NormalPath, Split;
    DropWord(p, separator, [DOT], q);
    DropWord(p, separator, [], q);
    assert p + [separator] + [DOT] + q == p + [separator, DOT] + q;
    assert p + [separator] + [] + q == p + [separator] + q;
  }

  /** A backslash separates components as a slash does. */
  lemma BackslashSeparates(p: Text, q: Text)
    requires IsRest(p)
    ensures IsAbsolute(p + [SLASH] + q) && IsAbsolute(p + [BACKSLASH] + q)
    ensures NormalPath(p + [BACKSLASH] + q) == NormalPath(p + [SLASH] + q)
  {
    hide Split, Evaluate, PathOf;
    if p == [] {
      assert ([] + [SLASH] + q)[1..] == q && ([] + [BACKSLASH] + q)[1..] == q;
    } else {
      SplitJoin(p[1..], SLASH, q);
      SplitJoin(p[1..], BACKSLASH, q);
      assert (p + [SLASH] + q)[1..] == p[1..] + [SLASH] + q && (p + [BACKSLASH] + q)[1..] == p[1..] + [BACKSLASH] + q;
    }
  }

  /** The parent of the root is the root. */
  lemma RootHasNoParent(separator: Octet, q: Text)
    requires IsSeparator(separator) && IsAbsolute(q)
    ensures NormalPath([separator, DOT, DOT] + q) == NormalPath(q)
  {
    hide NormalPath, Split;
    DropWord([], separator, [DOT, DOT], q);
    assert [] + [separator] + [DOT, DOT] + q == [separator, DOT, DOT] + q && [] + q == q;
  }

  lemma NothingRests()
    ensures RestComponents([]) == []
  {
  }

  /** A name followed by ".." may be dropped, anywhere in a path. */
  lemma ParentUndoesName(p: Text, a: Octet, name: Text, b: Octet, q: Text)
    requires IsRest(p) && IsSeparator(a) && IsName(name) && IsSeparator(b) && IsRest(q) && p + q != []
    ensures IsAbsolute(p + q)
    ensures NormalPath(p + [a] + name + [b, DOT, DOT] + q) == NormalPath(p + q)
  {
    hide NormalPath, Split, Evaluate, RestComponents, PathOf;
    var inner := p + [a] + name;
    EvaluateThrough(p, a, name, []);
    assert p + [a] + name + [] == inner && RestComponents([]) == [] by { NothingRests(); }
    EvaluateThrough(inner, b, [DOT, DOT], q);
    assert inner + [b] + [DOT, DOT] + q == p + [a] + name + [b, DOT, DOT] + q;
    NormalOfRest(inner + [b] + [DOT, DOT] + q);
    NormalOfRest(p + q);
    RestJoin(p, q);
    var components := RestComponents(p);
    assert components + [name] + [] == components + [name];
    EvaluateLast(components, name);
    EvaluateLast(components + [name], [DOT, DOT]);
    assert (Evaluate(components) + [name])[..|Evaluate(components)|] == Evaluate(components);
    EvaluateJoin(components + [name] + [[DOT, DOT]], components, RestComponents(q));
  }

  // --------------------------------------------------------------------- sizes

  /** The room components take, each with a separator. */
  function Room(components: seq<Text>): nat {
    if components == [] then 0
    else Room(components[..|components| - 1]) + |components[|components| - 1]| + 1
  }

  lemma {:induction false} RoomOfSplit(s: Text)
    ensures Room(Split(s)) == |s| + 1
  {
    if s != [] {
      var r := Split(s[..|s| - 1]);
      RoomOfSplit(s[..|s| - 1]);
      var n := |r| - 1;
      if IsSeparator(s[|s| - 1]) {
        assert (r + [[]])[..|r|] == r;
      } else {
        var r' := r[n := r[n] + [s[|s| - 1]]];
        assert r'[..n] == r[..n];
      }
    }
  }

  lemma {:induction false} NonemptyNames(components: seq<Text>)
    ensures forall i :: 0 <= i < |Evaluate(components)| ==> Evaluate(components)[i] != []
  {
    if components != [] {
      NonemptyNames(components[..|components| - 1]);
    }
  }

  lemma {:induction false} RoomOfNonempty(stack: seq<Text>)
    requires forall i :: 0 <= i < |stack| ==> stack[i] != []
    ensures 2 * |stack| <= Room(stack)
    ensures stack != [] ==> 2 * (|stack| - 1) <= Room(stack[..|stack| - 1])
  {
    if stack != [] {
      RoomOfNonempty(stack[..|stack| - 1]);
    }
  }

  lemma RoomOfFront(components: seq<Text>)
    ensures var stack := Evaluate(components);
            stack != [] && 2 * |stack| <= Room(stack) ==>
              Room(stack[..|stack| - 1]) < Room(stack) && 2 * (|stack| - 1) <= Room(stack[..|stack| - 1])
  {
    NonemptyNames(components);
    RoomOfNonempty(Evaluate(components));
  }

  /** Evaluation never takes more room than the components did, and every name on
      the stack takes at least two bytes. */
  lemma {:induction false} RoomOfEvaluate(components: seq<Text>)
    ensures Room(Evaluate(components)) <= Room(components) && 2 * |Evaluate(components)| <= Room(Evaluate(components))
  {
    if components != [] {
      var n := |components| - 1;
      var stack, c := Evaluate(components[..n]), components[n];
      RoomOfEvaluate(components[..n]);
      if c == [DOT, DOT] {
        RoomOfFront(components[..n]);
      } else if c != [DOT] && c != [] {
        assert (stack + [c])[..|stack|] == stack;
      }
    }
  }

  lemma {:induction false} JoinSize(stack: seq<Text>)
    ensures stack != [] ==> |Join(stack, [SLASH])| + 1 == Room(stack)
  {
    if |stack| > 1 {
      JoinSize(stack[..|stack| - 1]);
    } else if |stack| == 1 {
      assert stack[..0] == [];
    }
  }

  /** The normal form is no longer than the path, and a path within the size limit
      never reaches the depth limit. */
  lemma NormalFits(path: Text)
    requires IsAbsolute(path)
    ensures |NormalPath(path)| <= |path| && 2 * |Evaluate(Split(path[1..]))| <= |path|
  {
    hide Split, Evaluate, Join, Room;
    var components := Split(path[1..]);
    RoomOfSplit(path[1..]);
    RoomOfEvaluate(components);
    JoinSize(Evaluate(components));
    Nothing();
  }

  // ------------------------------------------------------------ string functions

  /** Space remaining in a buffer of n bytes. */
  function Remaining(n: nat, length: nat): nat { if n < length then 0 else n - length }

  /** A buffer of n bytes holds as much of the text as fits, and a terminator. */
  ghost predicate HoldsPart(dest: seq<Byte>, at: nat, n: nat, text: Text)
    requires at + n <= |dest|
  {
    n > 0 ==> var k := Min(|text|, n - 1); dest[at..at + k] == text[..k] && dest[at + k] == 0
  }

  /** guac_strlcpy. */
  method Strlcpy(dest: array<Byte>, at: nat, src: Text, n: nat) returns (length: nat)
    requires n > 0 ==> at + n <= dest.Length
    modifies dest
    ensures length == |src|
    ensures at + n <= dest.Length ==> HoldsPart(dest[..], at, n, src)
    ensures forall k :: 0 <= k < dest.Length && !(at <= k < at + n) ==> dest[k] == old(dest[k])
  {
    length := |src|;
    if n == 0 {
      return;
    }
    var copyLength := length;
    if copyLength >= n {
      copyLength := n - 1;
    }
    forall k | 0 <= k < copyLength {
      dest[at + k] := src[k];
    }
    dest[at + copyLength] := 0;
  }

  /** strnlen. */
  method Strnlen(dest: array<Byte>, at: nat, n: nat) returns (length: nat)
    requires n > 0 ==> at + n <= dest.Length
    ensures length <= n && (length < n ==> dest[at + length] == 0)
    ensures forall k :: at <= k < at + length ==> dest[k] != 0
  {
    length := 0;
    while length < n && dest[at + length] != 0
      invariant length <= n
      invariant forall k :: at <= k < at + length ==> dest[k] != 0
    {
      length := length + 1;
    }
  }

  /** guac_strlcat: the text goes after what the buffer holds already. */
  method Strlcat(dest: array<Byte>, at: nat, src: Text, n: nat) returns (length: nat)
    requires n > 0 ==> at + n <= dest.Length
    modifies dest
    ensures |src| <= length <= n + |src|
    ensures forall k :: at <= k < at + length - |src| ==> old(dest[k]) != 0
    ensures length - |src| < n ==>
              && old(dest[at + length - |src|]) == 0
              && HoldsPart(dest[..], at + length - |src|, n - (length - |src|), src)
    ensures forall k :: 0 <= k < dest.Length && !(at + length - |src| <= k < at + n) ==> dest[k] == old(dest[k])
  {
    var start := Strnlen(dest, at, n);
    var copied := Strlcpy(dest, at + start, src, Remaining(n, start));
    length := start + copied;
  }

  lemma PartEnds(dest: seq<Byte>, at: nat, n: nat, text: Text)
    requires at + n <= |dest| && |text| < n && HoldsPart(dest, at, n, text)
    ensures dest[at + |text|] == 0
  {
  }

  lemma ExtendPart(before: seq<Byte>, after: seq<Byte>, at: nat, n: nat, text: Text, src: Text)
    requires |before| == |after| && at + n <= |after| && |text| < n && HoldsPart(before, at, n, text)
    requires HoldsPart(after, at + |text|, n - |text|, src)
    requires forall k :: 0 <= k < at + |text| ==> after[k] == before[k]
    ensures HoldsPart(after, at, n, text + src)
  {
    var length, more := |text|, Min(|src|, n - |text| - 1);
    assert text[..length] == text && after[at..at + length] == before[at..at + length];
    assert after[at..at + length + more] == after[at..at + length] + after[at + length..at + length + more];
    assert (text + src)[..length + more] == text + src[..more];
  }

  lemma FullPart(before: seq<Byte>, after: seq<Byte>, at: nat, n: nat, text: Text, src: Text)
    requires before == after && at + n <= |after| && |text| >= n && HoldsPart(before, at, n, text)
    ensures HoldsPart(after, at, n, text + src)
  {
    if n > 0 {
      assert (text + src)[..n - 1] == text[..n - 1];
    }
  }

  /** Append to a buffer that holds what fits of a text. */
  method AppendPart(dest: array<Byte>, at: nat, n: nat, src: Text, length: nat, ghost text: Text) returns (total: nat)
    requires at + n <= dest.Length && length == |text| && HoldsPart(dest[..], at, n, text)
    modifies dest
    ensures total == |text + src| && HoldsPart(dest[..], at, n, text + src)
    ensures forall k :: 0 <= k < dest.Length && !(at <= k < at + n) ==> dest[k] == old(dest[k])
  {
    hide HoldsPart;
    if length < n {
      PartEnds(dest[..], at, n, text);
    }
    var added := Strlcat(dest, at + length, src, Remaining(n, length));
    total := length + added;
    if length < n {
      ExtendPart(old(dest[..]), dest[..], at, n, text, src);
    } else {
      FullPart(old(dest[..]), dest[..], at, n, text, src);
    }
  }

  /** guac_strljoin: as much of the joined text as fits, and the length of all of it. */
  method Strljoin(dest: array<Byte>, at: nat, elements: seq<Text>, delim: Text, n: nat) returns (length: nat)
    requires at + n <= dest.Length
    modifies dest
    ensures length == |Join(elements, delim)| && HoldsPart(dest[..], at, n, Join(elements, delim))
    ensures forall k :: 0 <= k < dest.Length && !(at <= k < at + n) ==> dest[k] == old(dest[k])
  {
    hide HoldsPart;
    if elements == [] {
      length := Strlcpy(dest, at, [], n);
      return;
    }
    length := Strlcpy(dest, at, elements[0], n);
    for i := 1 to |elements|
      invariant length == |Join(elements[..i], delim)| && HoldsPart(dest[..], at, n, Join(elements[..i], delim))
      invariant forall k :: 0 <= k < dest.Length && !(at <= k < at + n) ==> dest[k] == old(dest[k])
    {
      ghost var joined := Join(elements[..i], delim);
      length := AppendPart(dest, at, n, delim, length, joined);
      length := AppendPart(dest, at, n, elements[i], length, joined + delim);
      assert elements[..i + 1][..i] == elements[..i];
    }
    assert elements[..|elements|] == elements;
  }

  // -------------------------------------------------------------- the scratch copy

  /** The component that starts at an offset of the scratch copy and ends at a
      terminator. */
  ghost predicate ComponentAt(scratch: seq<Byte>, start: nat, text: Text) {
    start + |text| < |scratch| && scratch[start..start + |text|] == text && scratch[start + |text|] == 0
  }

  /** The stack of components by their offsets; all end before `limit`. */
  ghost predicate Stacked(scratch: seq<Byte>, starts: seq<nat>, stack: seq<Text>, limit: nat) {
    |starts| == |stack| &&
    forall k :: 0 <= k < |stack| ==> starts[k] + |stack[k]| < limit && ComponentAt(scratch, starts[k], stack[k])
  }

  /** The string at an offset, up to its terminator. */
  method StringAt(scratch: array<Byte>, start: nat, ghost text: Text) returns (s: Text)
    requires ComponentAt(scratch[..], start, text)
    ensures s == text
  {
    var n := 0;
    ghost var all := scratch[..];
    forall k | 0 <= k < |text| ensures scratch[start + k] == text[k] {
      assert all[start..start + |text|][k] == all[start + k];
    }
    while scratch[start + n] != 0
      invariant n <= |text|
      decreases |text| - n
    {
      n := n + 1;
    }
    s := scratch[start..start + n];
  }

  /** Is the string at this offset equal to a short one? (strcmp) */
  method Equals(scratch: array<Byte>, start: nat, other: Text, ghost text: Text) returns (equal: bool)
    requires ComponentAt(scratch[..], start, text)
    ensures equal == (text == other)
  {
    var s := StringAt(scratch, start, text);
    equal := s == other;
  }

  lemma StillStacked(scratch: seq<Byte>, after: seq<Byte>, starts: seq<nat>, stack: seq<Text>, limit: nat, i: nat)
    requires limit <= i < |scratch| && after == scratch[i := 0] && Stacked(scratch, starts, stack, limit)
    ensures Stacked(after, starts, stack, i + 1)
  {
    forall k | 0 <= k < |stack| ensures ComponentAt(after, starts[k], stack[k]) {
      assert ComponentAt(scratch, starts[k], stack[k]);
    }
  }

  lemma Terminated(scratch: seq<Byte>, after: seq<Byte>, current: nat, i: nat, component: Text)
    requires current <= i < |scratch| && after == scratch[i := 0] && scratch[current..i] == component
    ensures ComponentAt(after, current, component)
  {
  }

  lemma Popped(scratch: seq<Byte>, starts: seq<nat>, stack: seq<Text>, limit: nat)
    requires stack != [] && Stacked(scratch, starts, stack, limit)
    ensures |starts| == |stack| && Stacked(scratch, starts[..|starts| - 1], stack[..|stack| - 1], limit)
  {
  }

  lemma Pushed(scratch: seq<Byte>, starts: seq<nat>, stack: seq<Text>, current: nat, component: Text, i: nat)
    requires Stacked(scratch, starts, stack, i + 1)
    requires ComponentAt(scratch, current, component) && current + |component| == i
    ensures Stacked(scratch, starts + [current], stack + [component], i + 1)
  {
  }

  lemma StackSize(scratch: seq<Byte>, starts: seq<nat>, stack: seq<Text>, limit: nat)
    requires Stacked(scratch, starts, stack, limit)
    ensures |starts| == |stack|
  {
  }

  /** Terminate a component and follow it. */
  method TakeComponent(scratch: array<Byte>, i: nat, current: nat, starts: seq<nat>, ghost stack: seq<Text>)
    returns (ok: bool, starts': seq<nat>)
    requires current <= i < scratch.Length && (forall k :: current <= k < i ==> scratch[k] != 0)
    requires Stacked(scratch[..], starts, stack, current)
    modifies scratch
    ensures scratch[..] == old(scratch[..])[i := 0]
    ensures var component := old(scratch[current..i]);
            if !ok then |stack| >= MAX_DEPTH
            else Stacked(scratch[..], starts', Follow(stack, component), i + 1)
  {
    hide Stacked, ComponentAt;
    ghost var component: Text := scratch[current..i];
    scratch[i] := 0;
    StillStacked(old(scratch[..]), scratch[..], starts, stack, current, i);
    Terminated(old(scratch[..]), scratch[..], current, i, component);
    StackSize(scratch[..], starts, stack, i + 1);
    starts' := starts;
    ok := true;
    var isParent := Equals(scratch, current, [DOT, DOT], component);
    if isParent {
      if |starts| > 0 {
        starts' := starts[..|starts| - 1];
        Popped(scratch[..], starts, stack, i + 1);
      }
    } else {
      var isHere := Equals(scratch, current, [DOT], component);
      var isEmpty := Equals(scratch, current, [], component);
      if !isHere && !isEmpty {
        if |starts| >= MAX_DEPTH {
          return false, starts;
        }
        starts' := starts + [current];
        Pushed(scratch[..], starts, stack, current, component, i);
      }
    }
  }

  /** The components of a path before the one being read. */
  function Before(s: Text): seq<Text> { Split(s)[..|Split(s)| - 1] }

  function Current(s: Text): Text { Split(s)[|Split(s)| - 1] }

  lemma ReadOne(s: Text, c: Octet)
    ensures IsSeparator(c) ==> Before(s + [c]) == Split(s) && Current(s + [c]) == []
    ensures !IsSeparator(c) ==> Before(s + [c]) == Before(s) && Current(s + [c]) == Current(s) + [c]
    ensures Evaluate(Split(s)) == Follow(Evaluate(Before(s)), Current(s))
  {
    assert (s + [c])[..|s|] == s;
  }

  /** Halfway through a path the stack is at most half as deep as the path is long. */
  lemma DepthIsBounded(s: Text)
    ensures 2 * |Evaluate(Before(s))| <= |s|
  {
    hide Evaluate;
    RoomOfSplit(s);
    RoomOfEvaluate(Before(s));
  }

  lemma NothingRead(scratch: seq<Byte>)
    ensures Before([]) == [] && Current([]) == [] && Stacked(scratch, [], Evaluate([]), 0)
  {
  }

  /** The loop over the scratch copy. The depth limit is never reached. */
  method FindComponents(scratch: array<Byte>, length: nat, ghost rest: Text) returns (ok: bool, starts: seq<nat>)
    requires length == |rest| < scratch.Length == MAX_PATH - 1
    requires scratch[..length] == rest && scratch[length] == 0
    modifies scratch
    ensures ok && Stacked(scratch[..], starts, Evaluate(Split(rest)), length + 1)
  {
    hide Split, Evaluate, Follow, Stacked, Before, Current;
    var current: nat, i: nat := 0, 0;
    starts, ok := [], true;
    NothingRead(scratch[..]);
    assert rest[..0] == [];
    while i <= length && ok
      invariant current <= i <= length + 1 && ok
      invariant i <= length ==>
        && scratch[i..length] == rest[i..] && scratch[length] == 0
        && scratch[current..i] == Current(rest[..i])
        && Stacked(scratch[..], starts, Evaluate(Before(rest[..i])), current)
      invariant i == length + 1 ==> Stacked(scratch[..], starts, Evaluate(Split(rest)), length + 1)
      decreases length + 1 - i
    {
      var c := scratch[i];
      ghost var s := rest[..i];
      assert i < length ==> c == scratch[i..length][0] == rest[i] && rest[..i + 1] == s + [rest[i]];
      ReadOne(s, if i < length then rest[i] else SLASH);
      if IsSeparator(c) || c == 0 {
        DepthIsBounded(s);
        ghost var text: Text := Current(s);
        assert forall k :: current <= k < i ==> scratch[k] == text[k - current];
        ghost var before := scratch[..];
        ok, starts := TakeComponent(scratch, i, current, starts, Evaluate(Before(s)));
        assert i < length ==> scratch[i + 1..length] == before[i + 1..length] == rest[i + 1..];
        assert rest[..length] == rest;
        current := i + 1;
      } else {
        assert scratch[current..i + 1] == scratch[current..i] + [c];
        assert scratch[i + 1..length] == scratch[i..length][1..];
      }
      i := i + 1;
    }
  }

  lemma ComponentOf(scratch: seq<Byte>, starts: seq<nat>, stack: seq<Text>, limit: nat, k: nat)
    requires Stacked(scratch, starts, stack, limit) && k < |starts|
    ensures |starts| == |stack| && ComponentAt(scratch, starts[k], stack[k])
  {
  }

  /** guac_common_ssh_sftp_normalize_path: fails exactly on paths that are not
      absolute or too long; otherwise the buffer holds the whole normal form. */
  method NormalizePath(fullpath: array<Byte>, path: Text) returns (ok: bool)
    requires fullpath.Length == MAX_PATH
    modifies fullpath
    ensures ok <==> IsAbsolute(path) && |path| < MAX_PATH
    ensures !ok ==> fullpath[..] == old(fullpath[..])
    ensures ok ==>
              var normal := NormalPath(path);
              |normal| < MAX_PATH && fullpath[..|normal|] == normal && fullpath[|normal|] == 0
  {
    hide Split, Evaluate, Join, Stacked;
    if path == [] || !IsSeparator(path[0]) {
      return false;
    }
    var scratch := new Byte[MAX_PATH - 1](_ => 0);
    var rest := path[1..];
    var length := Strlcpy(scratch, 0, rest, scratch.Length);
    if length >= scratch.Length {
      return false;
    }
    assert rest[..length] == rest;
    ghost var stack := Evaluate(Split(rest));
    var found, starts := FindComponents(scratch, length, rest);
    StackSize(scratch[..], starts, stack, length + 1);
    var components: seq<Text> := [];
    ghost var found' := scratch[..];
    for k := 0 to |starts|
      invariant components == stack[..k] && scratch[..] == found'
    {
      ComponentOf(scratch[..], starts, stack, length + 1, k);
      var component := StringAt(scratch, starts[k], stack[k]);
      components := components + [component];
    }
    assert components == stack;
    NormalFits(path);
    fullpath[0] := SLASH;
    var joined := Strljoin(fullpath, 1, components, [SLASH], MAX_PATH - 1);
    ghost var text := Join(stack, [SLASH]);
    assert text[..|text|] == text;
    assert fullpath[..|text| + 1] == [SLASH] + fullpath[1..|text| + 1];
    ok := true;
  }
}
