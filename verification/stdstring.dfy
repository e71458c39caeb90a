/** The `std::string` operations the program uses, on strings as character
    sequences with `size_t` positions. */
module StdString {
  import opened Wrappers

  /** `std::string::npos`, the largest `size_t`. */
  const Npos: int := 0xFFFF_FFFF_FFFF_FFFF

  /** A `std::string`: never longer than `max_size()`, which is below npos. */
  type String = s: seq<char> | |s| < Npos

  /** 2^64: `size_t` arithmetic is modulo this. */
  const SizeModulus: int := 0x1_0000_0000_0000_0000

  /** Position of the first `c` in `s`, if any. */
  function FirstIndexOf(s: String, c: char): (r: Option<nat>)
    ensures r.None? <==> c !in s
    ensures r.Some? ==> r.value < |s| && s[r.value] == c && c !in s[..r.value]
  {
    if s == [] then None
    else if s[0] == c then Some(0)
    else match FirstIndexOf(s[1..], c)
      case None => None
      case Some(i) =>
        assert s[..i + 1] == [s[0]] + s[1..][..i];
        Some(i + 1)
  }

  /** `s.find(c)`: a position, or npos. */
  function Find(s: String, c: char): int {
    match FirstIndexOf(s, c)
    case None => Npos
    case Some(i) => i
  }

  /** `s.substr(pos, count)`: at most `count` characters from `pos`. */
  function Substr(s: String, pos: nat, count: int): String
    requires pos <= |s|
  {
    if count < 0 || pos + count >= |s| then s[pos..] else s[pos..pos + count]
  }

  /** Position of the last `c` in `s`, if any. */
  function LastIndexOf(s: String, c: char): (r: Option<nat>)
    ensures r.None? <==> c !in s
    ensures r.Some? ==> r.value < |s| && s[r.value] == c && c !in s[r.value + 1..]
  {
    if s == [] then None
    else if s[|s| - 1] == c then Some(|s| - 1)
    else
      assert s == s[..|s| - 1] + [s[|s| - 1]];
      match LastIndexOf(s[..|s| - 1], c)
      case None => None
      case Some(i) =>
        assert s[i + 1..] == s[..|s| - 1][i + 1..] + [s[|s| - 1]];
        Some(i)
  }

  /** The last `c` of `a + [c] + b` is the one after `a` when `b` has none. */
  lemma {:induction false} LastIndexOfJoin(a: String, c: char, b: String)
    requires c !in b && |a| + 1 + |b| < Npos
    ensures LastIndexOf(a + [c] + b, c) == Some(|a|)
    decreases |b|
  {
    var s := a + [c] + b;
    if b != [] {
      assert s[..|s| - 1] == a + [c] + b[..|b| - 1];
      assert b[|b| - 1] in b;
      LastIndexOfJoin(a, c, b[..|b| - 1]);
    }
  }

  /** `s.find_last_of(c)`: a position, or npos. */
  function FindLastOf(s: String, c: char): int {
    match LastIndexOf(s, c)
    case None => Npos
    case Some(i) => i
  }

  /** `s.erase(index, count)`: removes up to `count` characters from `index`;
      an index past the end throws std::out_of_range. */
  function Erase(s: String, index: nat, count: nat): (r: Result<String>)
    ensures r.Failure? <==> index > |s|
    ensures r.Success? ==> r.value == s[..index] + s[index + (if count < |s| - index then count else |s| - index)..]
  {
    if index > |s| then Failure(OutOfRange)
    else
      var n := if count < |s| - index then count else |s| - index;
      Success(s[..index] + s[index + n..])
  }

  /** `s.erase(index)`: everything from `index` on goes. */
  lemma EraseToEnd(s: String, index: nat)
    requires index <= |s|
    ensures Erase(s, index, Npos) == Success(s[..index])
  {
    var e := Erase(s, index, Npos);
    assert |s| - index < Npos;
    assert e.value == s[..index] + s[|s|..];
    assert s[..index] + s[|s|..] == s[..index];
  }
}
