/** String joining and splitting on a single separator character, with the
    semantics of JavaScript's `Array.prototype.join` and `String.prototype.split`.
    Every join and split in the extension uses a one-character separator
    (",", " ", "/" and the host path separator). */
module Text {

  /** `parts.join(sep)`: the parts with one separator between neighbours. */
  function Join(parts: seq<string>, sep: char): (s: string)
    ensures |parts| >= 1 ==> parts[0] <= s
    ensures sep in s <==> |parts| >= 2 || exists i :: 0 <= i < |parts| && sep in parts[i]
  {
    if |parts| == 0 then ""
    else if |parts| == 1 then parts[0]
    else parts[0] + [sep] + Join(parts[1..], sep)
  }

  /** `s.split(sep)`: the maximal separator-free pieces of `s`, in order.
      Like JavaScript, splitting the empty string yields one empty piece. */
  function Split(s: string, sep: char): (parts: seq<string>)
    ensures |parts| >= 1
    ensures forall i :: 0 <= i < |parts| ==> sep !in parts[i]
  {
    if |s| == 0 then [""]
    else
      var rest := Split(s[1..], sep);
      if s[0] == sep then [""] + rest
      else [[s[0]] + rest[0]] + rest[1..]
  }

  /** `r` is `s` with every `from` character replaced by `to`, and every other
      character kept in place. */
  ghost predicate ReplacedChar(s: string, r: string, from: char, to: char)
  {
    && |r| == |s|
    && forall i :: 0 <= i < |s| ==> r[i] == (if s[i] == from then to else s[i])
  }

  /** Prepending a character to the first part prepends it to the joined string. */
  lemma JoinConsFirst(c: char, parts: seq<string>, sep: char)
    requires |parts| >= 1
    ensures Join([[c] + parts[0]] + parts[1..], sep) == [c] + Join(parts, sep)
  {
    var ps := [[c] + parts[0]] + parts[1..];
    assert ps[1..] == parts[1..];
  }

  /** `s.split(from).join(to)` replaces every `from` by `to` and keeps every
      other character, in order. */
  lemma {:induction false} SplitJoinReplaces(s: string, from: char, to: char)
    ensures ReplacedChar(s, Join(Split(s, from), to), from, to)
  {
    if |s| > 0 {
      var rest := Split(s[1..], from);
      SplitJoinReplaces(s[1..], from, to);
      var j := Join(rest, to);
      if s[0] == from {
        assert ([""] + rest)[1..] == rest;
        assert Join(Split(s, from), to) == [to] + j;
      } else {
        JoinConsFirst(s[0], rest, to);
        assert Join(Split(s, from), to) == [s[0]] + j;
      }
    }
  }

  /** Splitting and re-joining on the same separator gives the string back. */
  lemma JoinSplit(s: string, sep: char)
    ensures Join(Split(s, sep), sep) == s
  {
    SplitJoinReplaces(s, sep, sep);
    var r := Join(Split(s, sep), sep);
    assert forall i :: 0 <= i < |s| ==> r[i] == s[i];
  }

  /** A separator-free prefix glues onto the first piece of what follows it. */
  lemma {:induction false} SplitSeparatorFreePrefix(a: string, t: string, sep: char)
    requires sep !in a
    ensures Split(a + t, sep) == [a + Split(t, sep)[0]] + Split(t, sep)[1..]
  {
    if |a| > 0 {
      assert (a + t)[1..] == a[1..] + t;
      SplitSeparatorFreePrefix(a[1..], t, sep);
      assert [a[0]] + (a[1..] + Split(t, sep)[0]) == a + Split(t, sep)[0];
    } else {
      var st := Split(t, sep);
      assert a + t == t;
      assert a + st[0] == st[0];
      assert [st[0]] + st[1..] == st;
    }
  }

  /** Joining separator-free parts and splitting again gives the parts back:
      the joined string is an unambiguous encoding of a non-empty list. */
  lemma {:induction false} SplitJoin(parts: seq<string>, sep: char)
    requires |parts| >= 1
    requires forall i :: 0 <= i < |parts| ==> sep !in parts[i]
    ensures Split(Join(parts, sep), sep) == parts
  {
    if |parts| == 1 {
      SplitSeparatorFreePrefix(parts[0], "", sep);
      assert parts[0] + "" == parts[0];
    } else {
      var j := Join(parts[1..], sep);
      SplitJoin(parts[1..], sep);
      assert parts[0] + [sep] + j == parts[0] + ([sep] + j);
      SplitSeparatorFreePrefix(parts[0], [sep] + j, sep);
      assert ([sep] + j)[1..] == j;
      assert parts[0] + "" == parts[0];
      assert [parts[0]] + parts[1..] == parts;
    }
  }

  /** A join is empty exactly when there is nothing, or one empty part, to join. */
  lemma JoinEmpty(parts: seq<string>, sep: char)
    ensures Join(parts, sep) == "" <==> (parts == [] || parts == [""])
  {
    if |parts| > 1 {
      assert |Join(parts, sep)| >= |parts[0]| + 1;
    }
  }
}
