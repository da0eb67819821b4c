/**
  Text helpers for the reason column: `Join` is Python's `sep.join(parts)`,
  and `Split` reads a joined reason back into its parts, so that what a
  reason says can be stated about its parts rather than about characters.
 */
module Strings {

  /** Python's `sep.join(parts)`: the parts in order, `sep` between neighbours. */
  function Join(parts: seq<string>, sep: string): (s: string)
    ensures parts == [] ==> s == ""
    ensures |parts| == 1 ==> s == parts[0]
  {
    if |parts| == 0 then ""
    else if |parts| == 1 then parts[0]
    else parts[0] + sep + Join(parts[1..], sep)
  }

  /** Joining two non-empty lists one after the other is joining each and
      putting the separator between them. */
  lemma {:induction false} JoinAppend(a: seq<string>, b: seq<string>, sep: string)
    requires |a| >= 1 && |b| >= 1
    ensures Join(a + b, sep) == Join(a, sep) + sep + Join(b, sep)
  {
    if |a| == 1 {
      assert (a + b)[1..] == b;
    } else {
      assert (a + b)[1..] == a[1..] + b;
      JoinAppend(a[1..], b, sep);
    }
  }

  /**
    Python's `s.split("; ")`: scans left to right and cuts at every
    occurrence of the two characters `;` and ` `.  The result always has at
    least one part (`"".split("; ")` is `[""]`).
   */
  function Split(s: string): (parts: seq<string>)
    ensures |parts| >= 1
    decreases |s|
  {
    if |s| >= 2 && s[0] == ';' && s[1] == ' ' then [""] + Split(s[2..])
    else if |s| == 0 then [""]
    else
      var rest := Split(s[1..]);
      [[s[0]] + rest[0]] + rest[1..]
  }

  /** A text with no `;` in it is read back as one part. */
  lemma {:induction false} SplitWhole(p: string)
    requires ';' !in p
    ensures Split(p) == [p]
  {
    if p != [] {
      assert p[0] != ';';
      assert ';' !in p[1..];
      SplitWhole(p[1..]);
      assert [p[0]] + p[1..] == p;
    }
  }

  /** A `;`-free text followed by the separator is cut off as the first part. */
  lemma {:induction false} SplitPrefix(p: string, t: string)
    requires ';' !in p
    ensures Split(p + "; " + t) == [p] + Split(t)
  {
    var s := p + "; " + t;
    if p == [] {
      assert s == "; " + t;
      assert s[2..] == t;
    } else {
      assert s[0] == p[0] && p[0] != ';';
      assert s[1..] == p[1..] + "; " + t;
      assert ';' !in p[1..];
      SplitPrefix(p[1..], t);
      assert [p[0]] + p[1..] == p;
    }
  }

  /**
    `Split` undoes `Join` with the separator `"; "` for any non-empty list of
    parts none of which contains `;`.
   */
  lemma {:induction false} SplitJoin(parts: seq<string>)
    requires |parts| >= 1
    requires forall i :: 0 <= i < |parts| ==> ';' !in parts[i]
    ensures Split(Join(parts, "; ")) == parts
  {
    if |parts| == 1 {
      SplitWhole(parts[0]);
    } else {
      SplitPrefix(parts[0], Join(parts[1..], "; "));
      SplitJoin(parts[1..]);
      assert [parts[0]] + parts[1..] == parts;
    }
  }
}
