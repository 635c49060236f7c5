/** The few JavaScript string built-ins the WebFinger handler relies on:
    `includes`, `replace` with a string pattern (first occurrence only),
    `split` on a one-character separator, and indexing the array that `split`
    returns (`undefined` past its end). All three string operations are built
    on one search, `indexOf`. */
module JsStrings {
  import opened Wrappers

  /** `pat` occurs in `s` starting at index `i`. */
  predicate OccursAt(s: string, pat: string, i: nat) {
    i + |pat| <= |s| && s[i..i + |pat|] == pat
  }

  /** The first occurrence of `pat` at or after `from`: `s.indexOf(pat, from)`
      for `from <= |s|` (past the end JavaScript clamps `from` to `|s|`, and
      this search is never asked there). */
  function IndexOfFrom(s: string, pat: string, from: nat): (r: Option<nat>)
    ensures r.Some? ==> from <= r.value && OccursAt(s, pat, r.value)
    ensures r.Some? ==> forall j :: from <= j < r.value ==> !OccursAt(s, pat, j)
    ensures r.None? ==> forall j :: from <= j ==> !OccursAt(s, pat, j)
    decreases |s| - from
  {
    if from + |pat| > |s| then None
    else if OccursAt(s, pat, from) then Some(from)
    else IndexOfFrom(s, pat, from + 1)
  }

  /** `s.indexOf(pat)`. */
  function IndexOf(s: string, pat: string): (r: Option<nat>)
    ensures r.Some? ==> OccursAt(s, pat, r.value) && forall j: nat :: j < r.value ==> !OccursAt(s, pat, j)
    ensures r.None? ==> forall j: nat :: !OccursAt(s, pat, j)
  {
    IndexOfFrom(s, pat, 0)
  }

  /** `s.includes(pat)`: `pat` occurs anywhere in `s`, not only as a prefix. */
  function Includes(s: string, pat: string): (b: bool)
    ensures b <==> exists i :: OccursAt(s, pat, i)
  {
    IndexOf(s, pat).Some?
  }

  /** `s.replace(pat, repl)` with a string pattern: only the first occurrence
      of `pat` is replaced, and `s` comes back unchanged when there is none. */
  function ReplaceFirst(s: string, pat: string, repl: string): (r: string)
    ensures !Includes(s, pat) ==> r == s
    ensures Includes(s, pat) ==> |r| == |s| - |pat| + |repl|
  {
    match IndexOf(s, pat)
    case None => s
    case Some(i) => s[..i] + repl + s[i + |pat|..]
  }

  /** Removing the first occurrence: when `pat` occurs first at `i`, the
      result keeps what precedes and what follows that occurrence. */
  lemma ReplaceFirstAt(s: string, pat: string, repl: string, i: nat)
    requires OccursAt(s, pat, i)
    requires forall j: nat :: j < i ==> !OccursAt(s, pat, j)
    ensures ReplaceFirst(s, pat, repl) == s[..i] + repl + s[i + |pat|..]
  {
    var k := IndexOf(s, pat);
    assert k.Some?;
    assert !(k.value < i) && !(i < k.value);
  }

  /** A one-character pattern occurs exactly where that character stands. */
  lemma OccursAtChar(s: string, c: char, i: nat)
    ensures OccursAt(s, [c], i) <==> i < |s| && s[i] == c
  {
    if i < |s| && s[i] == c {
      assert s[i..i + 1] == [c];
    }
  }

  /** `s.split(sep)` for a one-character separator: the maximal pieces of `s`
      between occurrences of `sep`. There is always at least one piece (the
      empty string splits into `[""]`), and no piece contains `sep`. */
  function Split(s: string, sep: char): (parts: seq<string>)
    ensures |parts| >= 1
    ensures forall k :: 0 <= k < |parts| ==> sep !in parts[k]
    ensures parts[0] <= s
    ensures |parts| == 1 <==> sep !in s
    ensures |parts| == 1 ==> parts[0] == s
    ensures |parts| > 1 ==> |parts[0]| < |s| && s[|parts[0]|] == sep
    decreases |s|
  {
    match IndexOf(s, [sep])
    case None =>
      assert sep !in s by {
        forall i | 0 <= i < |s| ensures s[i] != sep {
          OccursAtChar(s, sep, i);
        }
      }
      [s]
    case Some(i) =>
      OccursAtChar(s, sep, i);
      assert sep !in s[..i] by {
        forall j | 0 <= j < i ensures s[j] != sep {
          OccursAtChar(s, sep, j);
        }
      }
      [s[..i]] + Split(s[i + 1..], sep)
  }

  /** The first piece runs up to the first separator or the end; it is empty
      exactly when the string is empty or starts with the separator. */
  lemma FirstPiece(s: string, sep: char)
    ensures var p := Split(s, sep)[0];
      && p <= s && sep !in p
      && (|p| == |s| || s[|p|] == sep)
      && (p == "" <==> s == "" || s[0] == sep)
  {
    var p := Split(s, sep)[0];
    if s != "" && s[0] != sep {
      assert |p| > 0 by {
        if |Split(s, sep)| > 1 {
          assert |p| < |s| && s[|p|] == sep;
        }
      }
    }
  }

  /** After the first piece and its separator, `split` goes on with the rest. */
  lemma SplitTail(s: string, sep: char)
    requires sep in s
    ensures Split(s, sep)[1..] == Split(s[|Split(s, sep)[0]| + 1..], sep)
  {
    var j :| 0 <= j < |s| && s[j] == sep;
    OccursAtChar(s, sep, j);
    assert IndexOf(s, [sep]).Some?;
  }

  /** `parts.join(sep)`. */
  function Join(parts: seq<string>, sep: char): (s: string)
  {
    if |parts| == 0 then ""
    else if |parts| == 1 then parts[0]
    else parts[0] + [sep] + Join(parts[1..], sep)
  }

  /** Joining the pieces again gives back the string that was split. */
  lemma {:induction false} JoinSplit(s: string, sep: char)
    ensures Join(Split(s, sep), sep) == s
    decreases |s|
  {
    var parts := Split(s, sep);
    if sep in s {
      var a := parts[0];
      var rest := s[|a| + 1..];
      assert s == a + [sep] + rest by {
        FirstPiece(s, sep);
      }
      SplitAtFirstSep(a, rest, sep);
      JoinSplit(rest, sep);
      assert parts[1..] == Split(rest, sep);
      assert Join(parts, sep) == a + [sep] + Join(parts[1..], sep);
    }
  }

  /** A string without the separator is a single piece. */
  lemma SplitWithoutSep(s: string, sep: char)
    requires sep !in s
    ensures Split(s, sep) == [s]
  {
    assert IndexOf(s, [sep]).None? by {
      if IndexOf(s, [sep]).Some? {
        OccursAtChar(s, sep, IndexOf(s, [sep]).value);
      }
    }
  }

  /** The first piece ends at the first separator. */
  lemma SplitAtFirstSep(a: string, rest: string, sep: char)
    requires sep !in a
    ensures Split(a + [sep] + rest, sep) == [a] + Split(rest, sep)
  {
    var s := a + [sep] + rest;
    OccursAtChar(s, sep, |a|);
    var i := IndexOf(s, [sep]);
    assert i.Some?;
    assert i.value == |a| by {
      OccursAtChar(s, sep, i.value);
    }
    assert s[..|a|] == a;
    assert s[|a| + 1..] == rest;
  }

  /** Splitting a join of separator-free pieces gives back the pieces. */
  lemma {:induction false} SplitJoin(parts: seq<string>, sep: char)
    requires |parts| >= 1
    requires forall k :: 0 <= k < |parts| ==> sep !in parts[k]
    ensures Split(Join(parts, sep), sep) == parts
    decreases |parts|
  {
    if |parts| == 1 {
      SplitWithoutSep(parts[0], sep);
    } else {
      SplitAtFirstSep(parts[0], Join(parts[1..], sep), sep);
      SplitJoin(parts[1..], sep);
      assert parts == [parts[0]] + parts[1..];
    }
  }

  /** `a[i]` on an array of strings: `undefined` past the end. */
  function At(a: seq<string>, i: nat): Option<string>
  {
    if i < |a| then Some(a[i]) else None
  }
}
