/**
 * The string operations of the JDK that the service relies on: `String.replace` with a
 * literal target, and the line splitting of `Files.lines`; `IndexOf` is a helper of the
 * model for the line split and the cache-path parser, not a call of the service.
 */
module Text {
  import opened Wrappers

  predicate StartsWith(s: string, prefix: string) {
    |prefix| <= |s| && s[..|prefix|] == prefix
  }

  /** The index of the first occurrence of `c` in `s`, if any. */
  function IndexOf(s: string, c: char): (r: Option<nat>)
    ensures r.None? <==> c !in s
    ensures r.Some? ==> r.value < |s| && s[r.value] == c && c !in s[..r.value]
  {
    if s == [] then None
    else if s[0] == c then Some(0)
    else match IndexOf(s[1..], c)
      case None => None
      case Some(i) => assert s[1..][..i] == s[1..i + 1]; Some(i + 1)
  }

  /**
   * `s.replace(target, replacement)`: every occurrence of the literal `target`, found
   * from the beginning of the string to the end without overlaps, is replaced.
   */
  function Replace(s: string, target: string, replacement: string): (r: string)
    requires target != []
    ensures |replacement| == |target| ==> |r| == |s|
    ensures replacement == target ==> r == s
    decreases |s|
  {
    if s == [] then []
    else if StartsWith(s, target) then replacement + Replace(s[|target|..], target, replacement)
    else [s[0]] + Replace(s[1..], target, replacement)
  }

  /**
   * The lines of a text split at '\n' only, with no empty last line after a final
   * terminator: `Files.lines` for a text whose lines all end in '\n' ('\r' and "\r\n",
   * which `BufferedReader.readLine` also ends a line at, are kept as ordinary characters).
   */
  function Lines(s: string): (ls: seq<string>)
    ensures ls == [] <==> s == []
    ensures forall k :: 0 <= k < |ls| ==> '\n' !in ls[k]
    decreases |s|
  {
    if s == [] then []
    else
      var r := IndexOf(s, '\n');
      if r.None? then [s] else [s[..r.value]] + Lines(s[r.value + 1..])
  }

  /** Each line followed by a '\n' terminator. */
  function Unlines(ls: seq<string>): string {
    if ls == [] then [] else ls[0] + "\n" + Unlines(ls[1..])
  }

  /** A text without the character `c` is not changed by replacing a target that starts with `c`. */
  lemma {:induction false} ReplaceAbsent(s: string, target: string, replacement: string)
    requires target != [] && target[0] !in s
    ensures Replace(s, target, replacement) == s
  {
    if s != [] {
      assert s[0] != target[0];
      ReplaceAbsent(s[1..], target, replacement);
    }
  }

  /** A prefix that holds no character `target[0]` is copied unchanged by Replace. */
  lemma {:induction false} ReplaceSkipsPrefix(a: string, b: string, target: string, replacement: string)
    requires target != [] && target[0] !in a
    ensures Replace(a + b, target, replacement) == a + Replace(b, target, replacement)
  {
    if a == [] {
      assert a + b == b;
    } else {
      var s := a + b;
      assert s[0] == a[0] && s[0] != target[0];
      assert !StartsWith(s, target);
      assert s[1..] == a[1..] + b;
      ReplaceSkipsPrefix(a[1..], b, target, replacement);
      assert a == [a[0]] + a[1..];
    }
  }

  /** An occurrence of `target` at the front is replaced. */
  lemma ReplaceAtFront(b: string, target: string, replacement: string)
    requires target != []
    ensures Replace(target + b, target, replacement) == replacement + Replace(b, target, replacement)
  {
    var s := target + b;
    assert StartsWith(s, target);
    assert s[|target|..] == b;
  }

  /**
   * A text that starts with `other`, which differs from `target` at some position `k`
   * and holds `target[0]` only in front, is copied up to the end of `other`.
   */
  lemma ReplaceSkipsOther(other: string, b: string, target: string, replacement: string, k: nat)
    requires target != [] && k < |other| && k < |target| && other[k] != target[k]
    requires target[0] !in other[1..]
    ensures Replace(other + b, target, replacement) == other + Replace(b, target, replacement)
  {
    var s := other + b;
    assert s[k] == other[k];
    assert !StartsWith(s, target);
    assert s[1..] == other[1..] + b;
    ReplaceSkipsPrefix(other[1..], b, target, replacement);
  }

  /**
   * Splitting loses nothing: the lines, each with its terminator put back, are the text,
   * except that a last line without a terminator gains one.
   */
  lemma {:induction false} UnlinesLines(s: string)
    ensures Unlines(Lines(s)) == if s == [] || s[|s| - 1] == '\n' then s else s + "\n"
    decreases |s|
  {
    if s != [] {
      match IndexOf(s, '\n')
      case None =>
        SingleLine(s);
      case Some(i) =>
        var rest := s[i + 1..];
        LinesSplit(s, i);
        UnlinesLines(rest);
        UnlinesCons(s[..i], Lines(rest));
        TerminatedJoin(s, i);
    }
  }

  /** A non-empty text without a terminator is one line. */
  lemma SingleLine(s: string)
    requires s != [] && '\n' !in s
    ensures Unlines(Lines(s)) == s + "\n" && s[|s| - 1] != '\n'
  {
    assert Lines(s) == [s];
    assert Unlines([s]) == s + "\n";
  }

  /** The first line, its terminator and the joined rest give back the text. */
  lemma TerminatedJoin(s: string, i: nat)
    requires i < |s| && s[i] == '\n'
    ensures var first, rest := s[..i], s[i + 1..];
      first + "\n" + (if rest == [] || rest[|rest| - 1] == '\n' then rest else rest + "\n")
        == if s[|s| - 1] == '\n' then s else s + "\n"
  {
    var first, rest := s[..i], s[i + 1..];
    assert s == first + "\n" + rest;
    if rest != [] {
      assert rest[|rest| - 1] == s[|s| - 1];
    }
  }

  lemma LinesSplit(s: string, i: nat)
    requires IndexOf(s, '\n') == Some(i)
    ensures Lines(s) == [s[..i]] + Lines(s[i + 1..])
  {
    assert s != [];
  }

  lemma UnlinesCons(first: string, ls: seq<string>)
    ensures Unlines([first] + ls) == first + "\n" + Unlines(ls)
  {
    assert ([first] + ls)[1..] == ls;
  }

  /** A text made of `first`, a terminator and a last line `rest` has exactly those two lines. */
  lemma TwoLines(first: string, rest: string)
    requires '\n' !in first && '\n' !in rest && rest != []
    ensures Lines(first + "\n" + rest) == [first, rest]
  {
    var s := first + "\n" + rest;
    assert s[|first|] == '\n';
    assert s[..|first|] == first;
    assert IndexOf(s, '\n') == Some(|first|);
    assert s[|first| + 1..] == rest;
    assert IndexOf(rest, '\n') == None;
  }

  /** A character in neither part is not in their concatenation. */
  lemma NoCharInConcat(c: char, a: string, b: string)
    requires c !in a && c !in b
    ensures c !in a + b
  {
  }
}
