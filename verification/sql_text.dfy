/** The string shapes the statement builder works with: a list joined by a
    separator, the same list with the separator after every element (what a
    loop appending "part," builds), and QString::truncate(length() - 1). */
module SqlText {

  /** The parts with `sep` between neighbours and none after the last. */
  function Join(parts: seq<string>, sep: char): string
  {
    if |parts| == 0 then ""
    else if |parts| == 1 then parts[0]
    else Join(parts[..|parts| - 1], sep) + [sep] + parts[|parts| - 1]
  }

  /** Every part followed by `sep`. */
  function Terminated(parts: seq<string>, sep: char): string
  {
    if |parts| == 0 then "" else Terminated(parts[..|parts| - 1], sep) + parts[|parts| - 1] + [sep]
  }

  /** Drops the last character, if there is one. */
  function DropLast(s: string): (r: string)
    ensures |s| > 0 ==> s == r + [s[|s| - 1]]
    ensures |s| == 0 ==> r == s
  {
    if |s| == 0 then s else s[..|s| - 1]
  }

  /** Terminating one more part appends it and a separator. */
  lemma TerminatedSnoc(parts: seq<string>, last: string, sep: char)
    ensures Terminated(parts + [last], sep) == Terminated(parts, sep) + last + [sep]
  {
    var all := parts + [last];
    assert all[..|all| - 1] == parts;
  }

  /** A non-empty terminated list is the joined list plus one separator. */
  lemma {:induction false} TerminatedIsJoinedPlusSep(parts: seq<string>, sep: char)
    requires |parts| > 0
    ensures Terminated(parts, sep) == Join(parts, sep) + [sep]
    decreases |parts|
  {
    var init := parts[..|parts| - 1];
    if |parts| > 1 {
      TerminatedIsJoinedPlusSep(init, sep);
    } else {
      assert Terminated(init, sep) == "";
    }
  }

  /** Joining with one more part is terminating the others and appending it. */
  lemma JoinSnoc(parts: seq<string>, last: string, sep: char)
    ensures Join(parts + [last], sep) == Terminated(parts, sep) + last
  {
    var all := parts + [last];
    assert all[..|all| - 1] == parts;
    if |parts| > 0 {
      TerminatedIsJoinedPlusSep(parts, sep);
    }
  }

  /** Dropping the last character of a terminated list leaves the joined list:
      the trailing separator is what gets removed. */
  lemma DropTrailingSep(prefix: string, parts: seq<string>, sep: char)
    requires |parts| > 0
    ensures DropLast(prefix + Terminated(parts, sep)) == prefix + Join(parts, sep)
  {
    TerminatedIsJoinedPlusSep(parts, sep);
    assert prefix + Terminated(parts, sep) == (prefix + Join(parts, sep)) + [sep];
  }
}
