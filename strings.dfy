/** The handful of PHP string primitives the extractor relies on:
    `trim` with its default character list, `explode(' ', ...)`, the
    string case of `empty()` and an ASCII `strtolower`. */
module PhpString {

  /** The characters PHP's `trim` strips when given no character list:
      space, tab, line feed, carriage return, NUL and vertical tab. */
  predicate IsTrimmable(c: char) {
    c == ' ' || c == '\t' || c == '\n' || c == '\r' || c == '\0' || c == '\U{000B}'
  }

  /** `ltrim($s)`: drops the longest prefix of trimmable characters. */
  function TrimLeft(s: string): string
    decreases |s|
  {
    if |s| > 0 && IsTrimmable(s[0]) then TrimLeft(s[1..]) else s
  }

  /** `rtrim($s)`: drops the longest suffix of trimmable characters. */
  function TrimRight(s: string): string
    decreases |s|
  {
    if |s| > 0 && IsTrimmable(s[|s| - 1]) then TrimRight(s[..|s| - 1]) else s
  }

  /** `trim($s)`. */
  function Trim(s: string): string
  {
    TrimRight(TrimLeft(s))
  }

  /** `ltrim` keeps a suffix of `s`, cuts only trimmable characters and
      leaves a string that does not start with one. */
  lemma {:induction false} TrimLeftCuts(s: string)
    ensures |TrimLeft(s)| <= |s| && TrimLeft(s) == s[|s| - |TrimLeft(s)|..]
    ensures forall i :: 0 <= i < |s| - |TrimLeft(s)| ==> IsTrimmable(s[i])
    ensures TrimLeft(s) == [] || !IsTrimmable(TrimLeft(s)[0])
    decreases |s|
  {
    if |s| > 0 && IsTrimmable(s[0]) {
      TrimLeftCuts(s[1..]);
    }
  }

  /** `rtrim` keeps a prefix of `s`, cuts only trimmable characters and
      leaves a string that does not end with one. */
  lemma {:induction false} TrimRightCuts(s: string)
    ensures |TrimRight(s)| <= |s| && TrimRight(s) == s[..|TrimRight(s)|]
    ensures forall i :: |TrimRight(s)| <= i < |s| ==> IsTrimmable(s[i])
    ensures TrimRight(s) == [] || !IsTrimmable(TrimRight(s)[|TrimRight(s)| - 1])
    decreases |s|
  {
    if |s| > 0 && IsTrimmable(s[|s| - 1]) {
      TrimRightCuts(s[..|s| - 1]);
    }
  }

  /** `trim` removes a prefix and a suffix made only of trimmable
      characters and leaves a string that neither starts nor ends with one;
      the result is empty exactly when every character of `s` is
      trimmable, and it is `s` itself when `s` has nothing to strip. */
  lemma TrimSpec(s: string)
    ensures exists i, j :: 0 <= i <= j <= |s| && Trim(s) == s[i..j]
              && (forall k :: 0 <= k < i ==> IsTrimmable(s[k]))
              && (forall k :: j <= k < |s| ==> IsTrimmable(s[k]))
    ensures |Trim(s)| <= |s|
    ensures Trim(s) == [] || (!IsTrimmable(Trim(s)[0]) && !IsTrimmable(Trim(s)[|Trim(s)| - 1]))
    ensures Trim(s) == [] <==> forall i :: 0 <= i < |s| ==> IsTrimmable(s[i])
    ensures |s| > 0 && !IsTrimmable(s[0]) && !IsTrimmable(s[|s| - 1]) ==> Trim(s) == s
  {
    var i, j := TrimCuts(s);
    TrimEnds(s);
    TrimEmpty(s);
  }

  /** The positions where `trim` cuts: everything before `i` and from `j`
      on is trimmable, and what is left is `s[i..j]`. */
  lemma TrimCuts(s: string) returns (i: nat, j: nat)
    ensures i <= j <= |s| && Trim(s) == s[i..j]
    ensures forall k :: 0 <= k < i ==> IsTrimmable(s[k])
    ensures forall k :: j <= k < |s| ==> IsTrimmable(s[k])
  {
    var l := TrimLeft(s);
    TrimLeftCuts(s);
    TrimRightCuts(l);
    i := |s| - |l|;
    j := i + |TrimRight(l)|;
    assert l == s[i..];
    forall k | j <= k < |s|
      ensures IsTrimmable(s[k])
    {
      assert s[k] == l[k - i];
    }
  }

  lemma TrimEnds(s: string)
    ensures |Trim(s)| <= |s|
    ensures Trim(s) == [] || (!IsTrimmable(Trim(s)[0]) && !IsTrimmable(Trim(s)[|Trim(s)| - 1]))
  {
    var l := TrimLeft(s);
    var r := TrimRight(l);
    TrimLeftCuts(s);
    TrimRightCuts(l);
    if r != [] {
      assert r[0] == l[0];
    }
  }

  lemma TrimEmpty(s: string)
    ensures Trim(s) == [] <==> forall i :: 0 <= i < |s| ==> IsTrimmable(s[i])
  {
    var l := TrimLeft(s);
    var r := TrimRight(l);
    TrimLeftCuts(s);
    TrimRightCuts(l);
    if r == [] {
      assert l == [];
    }
  }

  /** PHP's `empty()` applied to a string: true for "" and for "0". */
  predicate IsPhpEmpty(s: string) {
    s == "" || s == "0"
  }

  /** `implode(' ', $parts)`. */
  function Join(parts: seq<string>): string
    requires |parts| >= 1
  {
    if |parts| == 1 then parts[0] else parts[0] + " " + Join(parts[1..])
  }

  /** `explode(' ', $s)`: the pieces of `s` between single spaces. */
  function Split(s: string): seq<string>
  {
    SplitFrom(s, "")
  }

  /** Splits `s` with the text `piece` already read into the current piece:
      a space closes the piece, any other character extends it. */
  function SplitFrom(s: string, piece: string): seq<string>
    decreases |s|
  {
    if s == [] then [piece]
    else if s[0] == ' ' then [piece] + SplitFrom(s[1..], "")
    else SplitFrom(s[1..], piece + [s[0]])
  }

  lemma {:induction false} SplitFromSpec(s: string, piece: string)
    requires ' ' !in piece
    ensures |SplitFrom(s, piece)| >= 1
    ensures forall i :: 0 <= i < |SplitFrom(s, piece)| ==> ' ' !in SplitFrom(s, piece)[i]
    ensures Join(SplitFrom(s, piece)) == piece + s
    decreases |s|
  {
    if s == [] {
      assert piece + s == piece;
    } else if s[0] == ' ' {
      SplitFromSpec(s[1..], "");
      var rest := SplitFrom(s[1..], "");
      assert ([piece] + rest)[1..] == rest;
      assert s == " " + s[1..];
      assert "" + s[1..] == s[1..];
    } else {
      SplitFromSpec(s[1..], piece + [s[0]]);
      assert piece + [s[0]] + s[1..] == piece + s;
    }
  }

  /** There is always at least one piece, no piece holds a space, and
      joining the pieces back with single spaces gives `s` again; two
      adjacent spaces therefore produce an empty piece. */
  lemma SplitSpec(s: string)
    ensures |Split(s)| >= 1
    ensures forall i :: 0 <= i < |Split(s)| ==> ' ' !in Split(s)[i]
    ensures Join(Split(s)) == s
  {
    SplitFromSpec(s, "");
    assert "" + s == s;
  }

  /** Space-free text is simply carried over into the current piece. */
  lemma {:induction false} SplitFromWord(w: string, s: string, piece: string)
    requires ' ' !in w
    ensures SplitFrom(w + s, piece) == SplitFrom(s, piece + w)
    decreases |w|
  {
    if w == [] {
      assert w + s == s && piece + w == piece;
    } else {
      assert (w + s)[0] == w[0] && (w + s)[1..] == w[1..] + s;
      SplitFromWord(w[1..], s, piece + [w[0]]);
      assert piece + [w[0]] + w[1..] == piece + w;
    }
  }

  /** The other round trip: space-free pieces joined by single spaces split
      back into exactly those pieces. */
  lemma {:induction false} SplitJoin(parts: seq<string>)
    requires |parts| >= 1
    requires forall i :: 0 <= i < |parts| ==> ' ' !in parts[i]
    ensures Split(Join(parts)) == parts
  {
    if |parts| == 1 {
      SplitFromWord(parts[0], "", "");
      assert parts[0] + "" == parts[0] && "" + parts[0] == parts[0];
    } else {
      var tail := Join(parts[1..]);
      SplitJoin(parts[1..]);
      assert parts[0] + " " + tail == parts[0] + (" " + tail);
      SplitFromWord(parts[0], " " + tail, "");
      assert (" " + tail)[0] == ' ' && (" " + tail)[1..] == tail;
      assert "" + parts[0] == parts[0];
    }
  }

  /** Two adjacent spaces anywhere in `s` produce an empty piece. */
  lemma SplitAdjacentSpaces(s: string, i: nat)
    requires i + 1 < |s| && s[i] == ' ' && s[i + 1] == ' '
    ensures "" in Split(s)
  {
    SplitFromAdjacentSpaces(s, "", i);
  }

  lemma {:induction false} SplitFromAdjacentSpaces(s: string, piece: string, i: nat)
    requires i + 1 < |s| && s[i] == ' ' && s[i + 1] == ' '
    ensures "" in SplitFrom(s, piece)
    decreases i
  {
    if i == 0 {
      var rest := SplitFrom(s[1..][1..], "");
      assert SplitFrom(s[1..], "") == [""] + rest;
      assert SplitFrom(s, piece) == [piece] + ([""] + rest);
    } else if s[0] == ' ' {
      SplitFromAdjacentSpaces(s[1..], "", i - 1);
      assert SplitFrom(s, piece) == [piece] + SplitFrom(s[1..], "");
    } else {
      SplitFromAdjacentSpaces(s[1..], piece + [s[0]], i - 1);
    }
  }

  /** ASCII lower-casing of one character, as `strtolower` does it. */
  function LowerChar(c: char): (r: char)
    ensures 'A' <= c <= 'Z' ==> 'a' <= r <= 'z' && r as int - c as int == 32
    ensures !('A' <= c <= 'Z') ==> r == c
  {
    if 'A' <= c <= 'Z' then (c as int + 32) as char else c
  }

  /** `strtolower($s)`, byte-wise over ASCII letters. */
  function ToLower(s: string): (r: string)
    ensures |r| == |s|
    ensures forall i :: 0 <= i < |s| ==> r[i] == LowerChar(s[i])
  {
    seq(|s|, i requires 0 <= i < |s| => LowerChar(s[i]))
  }

  predicate IsUpper(c: char) {
    'A' <= c <= 'Z'
  }

  /** The lower-cased string holds no ASCII capital, a string without
      capitals is left as it is, and lower-casing twice changes nothing
      more. Only capitals change, each to the lower-case letter 32 code
      points above it: every other character, including non-ASCII ones, is
      kept. */
  lemma ToLowerSpec(s: string)
    ensures forall i :: 0 <= i < |ToLower(s)| ==> !IsUpper(ToLower(s)[i])
    ensures (forall i :: 0 <= i < |s| ==> !IsUpper(s[i])) ==> ToLower(s) == s
    ensures ToLower(ToLower(s)) == ToLower(s)
    ensures forall i :: 0 <= i < |s| && !IsUpper(s[i]) ==> ToLower(s)[i] == s[i]
    ensures forall i :: 0 <= i < |s| && IsUpper(s[i]) ==>
              ToLower(s)[i] as int == s[i] as int + 32 && 'a' <= ToLower(s)[i] <= 'z'
  {
    var r := ToLower(s);
    assert forall i :: 0 <= i < |r| ==> !IsUpper(r[i]);
    if forall i :: 0 <= i < |s| ==> !IsUpper(s[i]) {
      assert r == s;
    }
    assert ToLower(r) == r;
  }
}
