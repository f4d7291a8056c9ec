/** The few operations of Go's `strings` package that the filter relies on.
    A Go string is a sequence of bytes; here it is a `string` holding one
    `char` per byte (the char's code is the byte's value), so Go's byte
    indices and Dafny's sequence indices coincide. */
module GoStrings {

  newtype byte = x: int | 0 <= x < 256

  /** Go's `string(bs)`: one char per byte. */
  function FromBytes(bs: seq<byte>): (s: string)
    ensures |s| == |bs|
  {
    if bs == [] then "" else [(bs[0] as int) as char] + FromBytes(bs[1..])
  }

  /** The conversion keeps the length and every byte's value. */
  lemma {:induction false} FromBytesKeepsBytes(bs: seq<byte>)
    ensures forall i :: 0 <= i < |bs| ==> FromBytes(bs)[i] as int == bs[i] as int
  {
    if bs != [] {
      FromBytesKeepsBytes(bs[1..]);
    }
  }

  /** Go's `strings.Index(s, string(c))` for a single ASCII character:
      the index of the first `c`, or -1 when there is none. */
  function IndexOf(s: string, c: char): (k: int)
    ensures -1 <= k < |s|
    ensures k == -1 <==> c !in s
    ensures 0 <= k ==> s[k] == c && c !in s[..k]
  {
    if s == [] then -1
    else if s[0] == c then 0
    else
      var k := IndexOf(s[1..], c);
      if k < 0 then -1
      else
        assert s[..k + 1] == [s[0]] + s[1..][..k];
        k + 1
  }

  /** How many characters at the start of `s` belong to the cut set. */
  ghost function LeadingCut(s: string, cut: set<char>): (n: nat)
    ensures n <= |s|
  {
    if s != [] && s[0] in cut then 1 + LeadingCut(s[1..], cut) else 0
  }

  /** How many characters at the end of `s` belong to the cut set. */
  ghost function TrailingCut(s: string, cut: set<char>): (n: nat)
    ensures n <= |s|
  {
    if s != [] && s[|s| - 1] in cut then 1 + TrailingCut(s[..|s| - 1], cut) else 0
  }

  /** Go's `strings.TrimLeft(s, cutset)`. */
  function TrimLeft(s: string, cut: set<char>): string
  {
    if s != [] && s[0] in cut then TrimLeft(s[1..], cut) else s
  }

  /** `TrimLeft` drops the longest prefix made of cut-set characters: every
      character dropped is in the cut set and the first one kept is not. */
  lemma {:induction false} TrimLeftDropsPrefix(s: string, cut: set<char>)
    ensures TrimLeft(s, cut) == s[LeadingCut(s, cut)..]
    ensures forall j :: 0 <= j < LeadingCut(s, cut) ==> s[j] in cut
    ensures TrimLeft(s, cut) == [] || TrimLeft(s, cut)[0] !in cut
  {
    if s != [] && s[0] in cut {
      var t := s[1..];
      TrimLeftDropsPrefix(t, cut);
      assert forall j :: 1 <= j < LeadingCut(s, cut) ==> s[j] == t[j - 1];
      assert TrimLeft(s, cut) == TrimLeft(t, cut);
      assert s[LeadingCut(s, cut)..] == t[LeadingCut(t, cut)..];
    }
  }

  /** Go's `strings.TrimRight(s, cutset)`. */
  function TrimRight(s: string, cut: set<char>): string
  {
    if s != [] && s[|s| - 1] in cut then TrimRight(s[..|s| - 1], cut) else s
  }

  /** `TrimRight` drops the longest suffix made of cut-set characters: every
      character dropped is in the cut set and the last one kept is not. */
  lemma {:induction false} TrimRightDropsSuffix(s: string, cut: set<char>)
    ensures TrimRight(s, cut) == s[..|s| - TrailingCut(s, cut)]
    ensures forall j :: |s| - TrailingCut(s, cut) <= j < |s| ==> s[j] in cut
    ensures TrimRight(s, cut) == [] || TrimRight(s, cut)[|TrimRight(s, cut)| - 1] !in cut
  {
    if s != [] && s[|s| - 1] in cut {
      var t := s[..|s| - 1];
      TrimRightDropsSuffix(t, cut);
      assert forall j :: 0 <= j < |t| ==> s[j] == t[j];
      assert TrimRight(s, cut) == TrimRight(t, cut);
      assert s[..|s| - TrailingCut(s, cut)] == t[..|t| - TrailingCut(t, cut)];
    }
  }

  /** Go's `strings.Trim(s, cutset)`: drops every leading and trailing
      character that is in the cut set. */
  function Trim(s: string, cut: set<char>): string
  {
    TrimRight(TrimLeft(s, cut), cut)
  }

  /** Trimming a padded text gives back the text: `Trim` removes exactly the
      padding made of cut-set characters on either side, whatever is inside. */
  lemma TrimPadded(left: string, core: string, right: string, cut: set<char>)
    requires forall j :: 0 <= j < |left| ==> left[j] in cut
    requires forall j :: 0 <= j < |right| ==> right[j] in cut
    requires core != [] ==> core[0] !in cut && core[|core| - 1] !in cut
    ensures Trim(left + core + right, cut) == core
  {
    var s := left + core + right;
    TrimLeftDropsPrefix(s, cut);
    if core == [] {
      assert forall j :: 0 <= j < |s| ==> s[j] in cut;
      LeadingCutAll(s, cut);
    } else {
      // the padding on the left is dropped and the first core character kept
      assert s[|left|] == core[0];
      LeadingCutExact(s, cut, |left|);
      var l := TrimLeft(s, cut);
      assert l == core + right;
      TrimRightDropsSuffix(l, cut);
      assert l[|core| - 1] == core[|core| - 1];
      TrailingCutExact(l, cut, |right|);
      assert TrimRight(l, cut) == l[..|core|];
    }
  }

  /** When every character is in the cut set, all of them are leading. */
  lemma {:induction false} LeadingCutAll(s: string, cut: set<char>)
    requires forall j :: 0 <= j < |s| ==> s[j] in cut
    ensures LeadingCut(s, cut) == |s|
  {
    if s != [] {
      assert forall j :: 0 <= j < |s[1..]| ==> s[1..][j] == s[j + 1];
      LeadingCutAll(s[1..], cut);
    }
  }

  /** `n` cut-set characters followed by one outside the set: exactly `n`
      leading characters are cut. */
  lemma LeadingCutExact(s: string, cut: set<char>, n: nat)
    requires n < |s| && s[n] !in cut
    requires forall j :: 0 <= j < n ==> s[j] in cut
    ensures LeadingCut(s, cut) == n
  {
    TrimLeftDropsPrefix(s, cut);
    var m := LeadingCut(s, cut);
    assert m <= n;
    assert m < |s| ==> s[m..][0] == s[m];
  }

  /** One character outside the cut set followed by `n` inside it: exactly
      `n` trailing characters are cut. */
  lemma TrailingCutExact(s: string, cut: set<char>, n: nat)
    requires n < |s| && s[|s| - 1 - n] !in cut
    requires forall j :: |s| - n <= j < |s| ==> s[j] in cut
    ensures TrailingCut(s, cut) == n
  {
    TrimRightDropsSuffix(s, cut);
    var m := TrailingCut(s, cut);
    assert m <= n;
    assert m < |s| ==> s[..|s| - m][|s| - m - 1] == s[|s| - m - 1];
  }

  /** Go's `strings.Trim` never grows its argument and leaves no cut-set
      character at either end of its result. */
  lemma TrimBounds(s: string, cut: set<char>)
    ensures |Trim(s, cut)| <= |s|
    ensures Trim(s, cut) != [] ==>
      Trim(s, cut)[0] !in cut && Trim(s, cut)[|Trim(s, cut)| - 1] !in cut
  {
    var l := TrimLeft(s, cut);
    var r := TrimRight(l, cut);
    TrimLeftDropsPrefix(s, cut);
    TrimRightDropsSuffix(l, cut);
    if r != [] { assert r[0] == l[0]; }
  }

  /** ASCII lower-casing of one character. */
  function LowerChar(c: char): (d: char)
    ensures 'A' <= c <= 'Z' ==> d as int == c as int + 32
    ensures !('A' <= c <= 'Z') ==> d == c
  {
    if 'A' <= c <= 'Z' then (c as int + 32) as char else c
  }

  /** `strings.ToLower` restricted to ASCII letters. */
  function ToLower(s: string): (r: string)
    ensures |r| == |s|
  {
    if s == [] then "" else [LowerChar(s[0])] + ToLower(s[1..])
  }

  /** Lower-casing works character by character and keeps the length. */
  lemma {:induction false} ToLowerCharwise(s: string)
    ensures forall i :: 0 <= i < |s| ==> ToLower(s)[i] == LowerChar(s[i])
  {
    if s != [] {
      ToLowerCharwise(s[1..]);
    }
  }
}
