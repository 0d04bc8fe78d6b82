/** The string operations the front ends use: substring search
    (`find(...) != npos`), splitting and joining on commas, and printing an
    integer in decimal. */
module Text {

  /** `t` starts at position `i` of `s`. */
  predicate At(t: string, s: string, i: int) {
    0 <= i && i + |t| <= |s| && s[i..i + |t|] == t
  }

  /** `s.find(t) != string::npos`. */
  function Occurs(t: string, s: string): (b: bool)
    decreases |s|
  {
    if |t| > |s| then false
    else if s[..|t|] == t then true
    else Occurs(t, s[1..])
  }

  /** An occurrence at a known position is found by the search. */
  lemma {:induction false} AtOccurs(t: string, s: string, i: int)
    requires At(t, s, i)
    ensures Occurs(t, s)
    decreases i
  {
    if i > 0 && s[..|t|] != t {
      assert s[1..][i - 1..i - 1 + |t|] == s[i..i + |t|];
      AtOccurs(t, s[1..], i - 1);
    }
  }

  /** What the search finds is an occurrence at some position. */
  lemma {:induction false} OccursAt(t: string, s: string) returns (i: int)
    requires Occurs(t, s)
    ensures At(t, s, i)
    decreases |s|
  {
    if s[..|t|] == t {
      i := 0;
    } else {
      var j := OccursAt(t, s[1..]);
      assert s[1..][j..j + |t|] == s[j + 1..j + 1 + |t|];
      i := j + 1;
    }
  }

  /** A string with a character `s` lacks never occurs in `s`. */
  lemma OccursNeeds(t: string, s: string, c: char)
    requires c in t && c !in s
    ensures !Occurs(t, s)
  {
    if Occurs(t, s) {
      var i := OccursAt(t, s);
      assert false;
    }
  }

  /** Whoever contains a string contains each of its prefixes. */
  lemma OccursPrefix(t: string, u: string, s: string)
    requires Occurs(t + u, s)
    ensures Occurs(t, s)
  {
    var i := OccursAt(t + u, s);
    assert s[i..i + |t|] == s[i..i + |t + u|][..|t|];
    AtOccurs(t, s, i);
  }

  /** `s.find(c)`, with `|s|` standing for `npos`. */
  function IndexOf(s: string, c: char): (i: nat)
    ensures i <= |s|
    ensures i < |s| ==> s[i] == c
    ensures c !in s[..i]
    ensures i == |s| <==> c !in s
  {
    if |s| == 0 then 0
    else if s[0] == c then 0
    else
      var j := IndexOf(s[1..], c);
      assert s[..j + 1] == [s[0]] + s[1..][..j];
      j + 1
  }

  /** The comma-separated fields of `s`: one more than its commas. */
  function Split(s: string): (fs: seq<string>)
    ensures |fs| >= 1
    decreases |s|
  {
    var i := IndexOf(s, ',');
    if i == |s| then [s] else [s[..i]] + Split(s[i + 1..])
  }

  /** No field of a split line holds a comma. */
  lemma {:induction false} SplitCommaFree(s: string)
    ensures forall k :: 0 <= k < |Split(s)| ==> ',' !in Split(s)[k]
    decreases |s|
  {
    var i := IndexOf(s, ',');
    if i < |s| {
      SplitCommaFree(s[i + 1..]);
      assert Split(s) == [s[..i]] + Split(s[i + 1..]);
    }
  }

  /** The fields `fs` written with a comma between each two. */
  function Join(fs: seq<string>): string
    requires |fs| >= 1
    decreases |fs|
  {
    if |fs| == 1 then fs[0] else fs[0] + "," + Join(fs[1..])
  }

  /** Joining comma-free fields and splitting the line gives the fields back. */
  lemma {:induction false} SplitJoin(fs: seq<string>)
    requires |fs| >= 1 && forall i :: 0 <= i < |fs| ==> ',' !in fs[i]
    ensures Split(Join(fs)) == fs
    decreases |fs|
  {
    if |fs| > 1 {
      var a, rest := fs[0], fs[1..];
      var s := a + "," + Join(rest);
      assert Join(fs) == s;
      CommaFreeTail(fs);
      SplitJoin(rest);
      SplitFirstField(a, Join(rest));
      assert fs == [a] + rest;
    }
  }

  lemma CommaFreeTail(fs: seq<string>)
    requires |fs| >= 1 && forall i :: 0 <= i < |fs| ==> ',' !in fs[i]
    ensures forall i :: 0 <= i < |fs[1..]| ==> ',' !in fs[1..][i]
  {
    assert forall i :: 0 <= i < |fs[1..]| ==> fs[1..][i] == fs[i + 1];
  }

  /** A comma-free field followed by a comma is split off as the first field. */
  lemma SplitFirstField(a: string, t: string)
    requires ',' !in a
    ensures Split(a + "," + t) == [a] + Split(t)
  {
    var s := a + "," + t;
    assert s[..|a|] == a && s[|a|] == ',' && s[|a| + 1..] == t;
    assert IndexOf(s, ',') == |a|;
  }

  /** Splitting a line and joining its fields gives the line back. */
  lemma {:induction false} JoinSplit(s: string)
    ensures Join(Split(s)) == s
    decreases |s|
  {
    var i := IndexOf(s, ',');
    if i < |s| {
      var rest := Split(s[i + 1..]);
      assert Join(Split(s)) == s[..i] + "," + s[i + 1..] by {
        assert Split(s) == [s[..i]] + rest;
        JoinSplit(s[i + 1..]);
        JoinCons(s[..i], rest);
      }
      assert s == s[..i] + "," + s[i + 1..] by {
        assert s[i] == ',';
      }
    }
  }

  /** Joining a field in front of others puts a comma between. */
  lemma JoinCons(a: string, rest: seq<string>)
    requires |rest| >= 1
    ensures Join([a] + rest) == a + "," + Join(rest)
  {
    assert ([a] + rest)[1..] == rest;
  }

  /** Joining two non-empty runs of fields is joining each and putting a
      comma between. */
  lemma {:induction false} JoinAppend(a: seq<string>, b: seq<string>)
    requires |a| >= 1 && |b| >= 1
    ensures Join(a + b) == Join(a) + "," + Join(b)
    decreases |a|
  {
    if |a| > 1 {
      assert (a + b)[1..] == a[1..] + b;
      JoinAppend(a[1..], b);
    } else {
      assert (a + b)[1..] == b;
    }
  }

  /** The decimal digit character of `d`. */
  function Digit(d: nat): (c: char)
    requires d < 10
    ensures '0' <= c <= '9' && c as int == '0' as int + d
  {
    ('0' as int + d) as char
  }

  /** The decimal digits of `n`, most significant first. */
  function NatToString(n: nat): (s: string)
    ensures |s| >= 1 && forall i :: 0 <= i < |s| ==> '0' <= s[i] <= '9'
    decreases n
  {
    if n < 10 then [Digit(n)] else NatToString(n / 10) + [Digit(n % 10)]
  }

  /** An integer as `operator<<` prints it: a minus sign, then the digits. */
  function IntToString(i: int): (s: string)
    ensures ',' !in s && |s| >= 1
  {
    if i < 0 then "-" + NatToString(-i) else NatToString(i)
  }
}
