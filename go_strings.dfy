/**
 * The few operations of Go's `strings` package that image-reference handling relies on,
 * specialised to the separator "/": `strings.Split`, `strings.Join`, `strings.TrimSuffix`
 * and `strings.Contains`.
 */
module GoStrings {

  /** Position of the first `c` in `s`, or `|s|` when there is none. */
  function IndexOf(s: string, c: char): (i: nat)
    ensures i <= |s|
    ensures i < |s| ==> s[i] == c
    ensures c !in s[..i]
  {
    if |s| == 0 then 0
    else if s[0] == c then 0
    else
      var j := IndexOf(s[1..], c);
      assert s[..1 + j] == [s[0]] + s[1..][..j];
      1 + j
  }

  lemma IndexOfAbsent(s: string, c: char)
    requires c !in s
    ensures IndexOf(s, c) == |s|
  {
  }

  /** Any position holding `c` with no earlier `c` is the one IndexOf finds. */
  lemma IndexOfAt(s: string, c: char, i: nat)
    requires i < |s| && s[i] == c && c !in s[..i]
    ensures IndexOf(s, c) == i
  {
  }

  /**
   * `strings.Split(s, "/")`: the maximal slash-free pieces of `s`, in order. An empty
   * string gives one empty piece, and there is always one piece more than there are
   * slashes.
   */
  function Split(s: string): (parts: seq<string>)
    ensures |parts| >= 1
    ensures parts[0] == s[..IndexOf(s, '/')]
    ensures |parts| == 1 <==> '/' !in s
    ensures forall k | 0 <= k < |parts| :: '/' !in parts[k]
    decreases |s|
  {
    var i := IndexOf(s, '/');
    if i == |s| then
      assert s[..i] == s;
      [s]
    else
      [s[..i]] + Split(s[i + 1..])
  }

  predicate EndsWith(s: string, t: string)
  {
    |t| <= |s| && s[|s| - |t|..] == t
  }

  /** `strings.Join(parts, "/")`: the last piece ends the result; no pieces give "". */
  function Join(parts: seq<string>): (r: string)
    ensures parts != [] ==> EndsWith(r, parts[|parts| - 1])
    ensures parts == [] ==> r == ""
  {
    if |parts| == 0 then ""
    else if |parts| == 1 then parts[0]
    else parts[0] + "/" + Join(parts[1..])
  }

  /** Split peels off the text before the first "/" as its first piece. */
  lemma SplitStep(s: string)
    requires IndexOf(s, '/') < |s|
    ensures Split(s) == [s[..IndexOf(s, '/')]] + Split(s[IndexOf(s, '/') + 1..])
  {
  }

  /** Joining the pieces of a split restores the string. */
  lemma {:induction false} JoinSplit(s: string)
    ensures Join(Split(s)) == s
    decreases |s|
  {
    var i := IndexOf(s, '/');
    if i < |s| {
      var head, tail := s[..i], s[i + 1..];
      JoinCons(head, Split(tail));
      JoinSplit(tail);
      SplitAround(s, i);
    }
  }

  /** After the first "/", the remaining pieces of a split join back to the rest of the string. */
  lemma JoinSplitTail(s: string)
    requires IndexOf(s, '/') < |s|
    ensures Join(Split(s)[1..]) == s[IndexOf(s, '/') + 1..]
  {
    var i := IndexOf(s, '/');
    var rest := Split(s)[1..];
    SplitStep(s);
    DropFirst(s[..i], Split(s[i + 1..]));
    JoinCons(s[..i], rest);
    JoinSplit(s);
    ConsTail(s, s[..i], Join(rest));
  }

  lemma ConsTail(s: string, head: string, tail: string)
    requires s == head + "/" + tail
    ensures tail == s[|head| + 1..]
  {
  }

  lemma DropFirst<T>(x: T, ys: seq<T>)
    ensures ([x] + ys)[1..] == ys
  {
  }

  lemma JoinCons(head: string, rest: seq<string>)
    requires |rest| >= 1
    ensures Join([head] + rest) == head + "/" + Join(rest)
  {
    assert ([head] + rest)[1..] == rest;
  }

  lemma SplitAround(s: string, i: nat)
    requires i < |s| && s[i] == '/'
    ensures s == s[..i] + "/" + s[i + 1..]
  {
  }

  /** Splitting a join of slash-free pieces gives the pieces back. */
  lemma {:induction false} SplitJoin(parts: seq<string>)
    requires |parts| >= 1
    requires forall k | 0 <= k < |parts| :: '/' !in parts[k]
    ensures Split(Join(parts)) == parts
    decreases |parts|
  {
    if |parts| == 1 {
      IndexOfAbsent(parts[0], '/');
    } else {
      var rest := parts[1..];
      assert forall k | 0 <= k < |rest| :: rest[k] == parts[k + 1];
      JoinCons(parts[0], rest);
      SplitCons(parts[0], Join(rest));
      SplitJoin(rest);
      assert [parts[0]] + rest == parts;
    }
  }

  lemma SplitCons(p: string, tail: string)
    requires '/' !in p
    ensures Split(p + "/" + tail) == [p] + Split(tail)
  {
    var s := p + "/" + tail;
    assert s[..|p|] == p;
    IndexOfAt(s, '/', |p|);
    assert s[|p| + 1..] == tail;
  }

  /**
   * `strings.TrimSuffix(s, suffix)`: removes one occurrence of `suffix` when `s` ends
   * with it, and leaves `s` alone otherwise.
   */
  function TrimSuffix(s: string, suffix: string): (r: string)
    ensures |suffix| <= |s| && s[|s| - |suffix|..] == suffix ==> r + suffix == s
    ensures !(|suffix| <= |s| && s[|s| - |suffix|..] == suffix) ==> r == s
  {
    if |suffix| <= |s| && s[|s| - |suffix|..] == suffix then s[..|s| - |suffix|] else s
  }
}
