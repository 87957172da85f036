/** The depth-first search for an MP3 link in a converter's JSON reply
    (findMp3InJson, apps/day02-audio-equalizer/app.js), with the regular expression
    `/https?:\/\/[^\s"'<>]+?\.mp3(\?[^"']*)?/i` it applies to every string. */
module Mp3Search {
  import opened Common

  /** A parsed JSON value. Object members are listed in `Object.keys` order. */
  datatype Json =
    | JNull
    | JBool(b: bool)
    | JNum(n: int)
    | JStr(s: string)
    | JArr(items: seq<Json>)
    | JObj(members: seq<(string, Json)>)

  /** `!obj` in JavaScript. */
  predicate Falsy(j: Json) {
    j.JNull? || j == JBool(false) || j == JNum(0) || j == JStr("")
  }

  /* ---------- the link pattern ---------- */

  /** `s[i..]` begins with the lower-case ASCII pattern `pat`, ignoring ASCII case (the
      `i` flag). */
  predicate MatchesCI(s: string, i: nat, pat: string) {
    i + |pat| <= |s| && forall k :: 0 <= k < |pat| ==> LowerChar(s[i + k]) == pat[k]
  }

  /** `[^\s"'<>]` */
  predicate InBodyClass(c: char) {
    !IsSpace(c) && c != '"' && c != '\'' && c != '<' && c != '>'
  }

  /** `[^"']` */
  predicate InQueryClass(c: char) {
    c != '"' && c != '\''
  }

  /** The lazy `[^\s"'<>]+?` followed by `\.mp3`: the first position `e >= j` where `.mp3`
      starts, every character between `j` and `e` being in the body class. */
  function LazyBodyEnd(s: string, j: nat): (r: Option<nat>)
    ensures r.Some? ==> j <= r.value && MatchesCI(s, r.value, ".mp3")
    ensures r.Some? ==> forall k :: j <= k < r.value ==> InBodyClass(s[k])
    decreases |s| - j
  {
    if j > |s| then None
    else if MatchesCI(s, j, ".mp3") then Some(j)
    else if j < |s| && InBodyClass(s[j]) then LazyBodyEnd(s, j + 1)
    else None
  }

  /** The greedy `[^"']*`: the end of the run of query characters starting at `e`. */
  function QueryEnd(s: string, e: nat): (r: nat)
    requires e <= |s|
    ensures e <= r <= |s|
    ensures forall k :: e <= k < r ==> InQueryClass(s[k])
    decreases |s| - e
  {
    if e < |s| && InQueryClass(s[e]) then QueryEnd(s, e + 1) else e
  }

  /** The end of the match of the link pattern starting at position `i`, if there is one.
      After `http`, an `s` is taken when present; giving it back cannot help, since `:`
      would then have to stand where the `s` is. */
  function MatchAt(s: string, i: nat): (r: Option<nat>)
    ensures r.Some? ==> i < r.value <= |s| && MatchesCI(s, i, "http")
    ensures r.Some? ==> exists j :: i + 8 <= j && j + 4 <= r.value && MatchesCI(s, j, ".mp3")
  {
    if !MatchesCI(s, i, "http") then None
    else
      var p := if i + 4 < |s| && LowerChar(s[i + 4]) == 's' then i + 5 else i + 4;
      if !(p + 3 <= |s| && s[p..p + 3] == "://") then None
      else
        var q := p + 3;
        if !(q < |s| && InBodyClass(s[q])) then None
        else
          match LazyBodyEnd(s, q + 1)
          case None => None
          case Some(j) =>
            var e := j + 4;
            if e < |s| && s[e] == '?' then Some(QueryEnd(s, e + 1)) else Some(e)
  }

  predicate IsSubstring(m: string, s: string) {
    exists a, b :: 0 <= a <= b <= |s| && m == s[a..b]
  }

  /** The leftmost match of the link pattern in `s[i..]`. */
  function FindFrom(s: string, i: nat): (r: Option<string>)
    ensures r.Some? ==> IsSubstring(r.value, s) && MatchesCI(r.value, 0, "http")
    ensures r.Some? ==> exists j :: 8 <= j && j + 4 <= |r.value| && MatchesCI(r.value, j, ".mp3")
    decreases |s| - i
  {
    if i >= |s| then None
    else
      match MatchAt(s, i)
      case Some(e) =>
        var j :| i + 8 <= j && j + 4 <= e && MatchesCI(s, j, ".mp3");
        assert MatchesCI(s[i..e], j - i, ".mp3");
        Some(s[i..e])
      case None => FindFrom(s, i + 1)
  }

  /** `obj.match(re)` for a string leaf: the first link in it, if any. */
  function FindInString(s: string): Option<string>
  {
    FindFrom(s, 0)
  }

  /* ---------- the tree search ---------- */

  /** findMp3InJson: null for falsy values and for numbers and booleans; the first link
      of a string; for arrays and objects, the first child (in element or key order) whose
      search succeeds. */
  function FindMp3(j: Json): (r: Option<string>)
    ensures j.JNull? || j.JBool? || j.JNum? ==> r.None?
    decreases j, 2
  {
    if Falsy(j) then None
    else
      match j
      case JStr(s) => FindInString(s)
      case JArr(items) => FirstInItems(items, 0)
      case JObj(members) => FirstInMembers(members, 0)
      case _ => None
  }

  function FirstInItems(items: seq<Json>, from: nat): (r: Option<string>)
    requires from <= |items|
    decreases JArr(items), 1, |items| - from
  {
    if from == |items| then None
    else
      match FindMp3(items[from])
      case Some(f) => Some(f)
      case None => FirstInItems(items, from + 1)
  }

  function FirstInMembers(members: seq<(string, Json)>, from: nat): (r: Option<string>)
    requires from <= |members|
    decreases JObj(members), 1, |members| - from
  {
    if from == |members| then None
    else
      match FindMp3(members[from].1)
      case Some(f) => Some(f)
      case None => FirstInMembers(members, from + 1)
  }

  /** An array's search returns the result of its first child whose search succeeds, and
      nothing when no child's does. */
  lemma {:induction false} ArrayFirstChildWins(items: seq<Json>, from: nat)
    requires from <= |items|
    ensures FirstInItems(items, from).Some? ==>
              exists k :: from <= k < |items| && FindMp3(items[k]) == FirstInItems(items, from) &&
                forall l :: from <= l < k ==> FindMp3(items[l]).None?
    ensures FirstInItems(items, from).None? <==>
              forall l :: from <= l < |items| ==> FindMp3(items[l]).None?
    decreases |items| - from
  {
    if from < |items| {
      if FindMp3(items[from]).Some? {
        assert FirstInItems(items, from) == FindMp3(items[from]);
      } else {
        ArrayFirstChildWins(items, from + 1);
        assert FirstInItems(items, from) == FirstInItems(items, from + 1);
        if FirstInItems(items, from).Some? {
          var k :| from + 1 <= k < |items| && FindMp3(items[k]) == FirstInItems(items, from + 1) &&
                   forall l :: from + 1 <= l < k ==> FindMp3(items[l]).None?;
          assert forall l :: from <= l < k ==> FindMp3(items[l]).None?;
        }
      }
    }
  }

  /** An object's search returns the result of its first member, in key order, whose search
      succeeds, and nothing when no member's does. */
  lemma {:induction false} ObjectFirstMemberWins(members: seq<(string, Json)>, from: nat)
    requires from <= |members|
    ensures FirstInMembers(members, from).Some? ==>
              exists k :: from <= k < |members| && FindMp3(members[k].1) == FirstInMembers(members, from) &&
                forall l :: from <= l < k ==> FindMp3(members[l].1).None?
    ensures FirstInMembers(members, from).None? <==>
              forall l :: from <= l < |members| ==> FindMp3(members[l].1).None?
    decreases |members| - from
  {
    if from < |members| {
      if FindMp3(members[from].1).Some? {
        assert FirstInMembers(members, from) == FindMp3(members[from].1);
      } else {
        ObjectFirstMemberWins(members, from + 1);
        assert FirstInMembers(members, from) == FirstInMembers(members, from + 1);
        if FirstInMembers(members, from).Some? {
          var k :| from + 1 <= k < |members| && FindMp3(members[k].1) == FirstInMembers(members, from + 1) &&
                   forall l :: from + 1 <= l < k ==> FindMp3(members[l].1).None?;
          assert forall l :: from <= l < k ==> FindMp3(members[l].1).None?;
        }
      }
    }
  }

  /* ---------- an independent account: the first link among the string leaves ---------- */

  /** The string leaves of a tree, left to right. */
  function Leaves(j: Json): seq<string>
    decreases j, 2
  {
    match j
    case JStr(s) => [s]
    case JArr(items) => LeavesOfItems(items, 0)
    case JObj(members) => LeavesOfMembers(members, 0)
    case _ => []
  }

  function LeavesOfItems(items: seq<Json>, from: nat): seq<string>
    requires from <= |items|
    decreases JArr(items), 1, |items| - from
  {
    if from == |items| then [] else Leaves(items[from]) + LeavesOfItems(items, from + 1)
  }

  function LeavesOfMembers(members: seq<(string, Json)>, from: nat): seq<string>
    requires from <= |members|
    decreases JObj(members), 1, |members| - from
  {
    if from == |members| then [] else Leaves(members[from].1) + LeavesOfMembers(members, from + 1)
  }

  /** The first link found in a list of strings, scanning them in order. */
  function FirstLink(leaves: seq<string>): Option<string>
  {
    if |leaves| == 0 then None
    else
      match FindInString(leaves[0])
      case Some(m) => Some(m)
      case None => FirstLink(leaves[1..])
  }

  lemma {:induction false} FirstLinkConcat(a: seq<string>, b: seq<string>)
    ensures FirstLink(a + b) == if FirstLink(a).Some? then FirstLink(a) else FirstLink(b)
    decreases |a|
  {
    if |a| == 0 {
      assert a + b == b;
    } else {
      assert (a + b)[0] == a[0] && (a + b)[1..] == a[1..] + b;
      FirstLinkConcat(a[1..], b);
    }
  }

  /** The depth-first search finds exactly the first link among the string leaves, read
      left to right. */
  lemma {:induction false} FindMp3IsFirstLeafLink(j: Json)
    ensures FindMp3(j) == FirstLink(Leaves(j))
    decreases j, 2
  {
    match j
    case JStr(s) =>
      assert Leaves(j)[1..] == [];
    case JArr(items) => ItemsFirstLeafLink(items, 0);
    case JObj(members) => MembersFirstLeafLink(members, 0);
    case _ =>
  }

  lemma {:induction false} ItemsFirstLeafLink(items: seq<Json>, from: nat)
    requires from <= |items|
    ensures FirstInItems(items, from) == FirstLink(LeavesOfItems(items, from))
    decreases JArr(items), 1, |items| - from
  {
    if from < |items| {
      FindMp3IsFirstLeafLink(items[from]);
      ItemsFirstLeafLink(items, from + 1);
      FirstLinkConcat(Leaves(items[from]), LeavesOfItems(items, from + 1));
    }
  }

  lemma {:induction false} MembersFirstLeafLink(members: seq<(string, Json)>, from: nat)
    requires from <= |members|
    ensures FirstInMembers(members, from) == FirstLink(LeavesOfMembers(members, from))
    decreases JObj(members), 1, |members| - from
  {
    if from < |members| {
      FindMp3IsFirstLeafLink(members[from].1);
      MembersFirstLeafLink(members, from + 1);
      FirstLinkConcat(Leaves(members[from].1), LeavesOfMembers(members, from + 1));
    }
  }

  lemma {:induction false} FirstLinkFromSomeLeaf(leaves: seq<string>)
    requires FirstLink(leaves).Some?
    ensures exists k :: 0 <= k < |leaves| && IsSubstring(FirstLink(leaves).value, leaves[k])
  {
    if FindInString(leaves[0]).None? {
      FirstLinkFromSomeLeaf(leaves[1..]);
      var k :| 0 <= k < |leaves[1..]| && IsSubstring(FirstLink(leaves[1..]).value, leaves[1..][k]);
      assert leaves[1..][k] == leaves[k + 1];
    }
  }

  /** A link the search returns is a piece of one of the tree's string leaves. */
  lemma FoundLinkIsInALeaf(j: Json)
    requires FindMp3(j).Some?
    ensures exists k :: 0 <= k < |Leaves(j)| && IsSubstring(FindMp3(j).value, Leaves(j)[k])
  {
    FindMp3IsFirstLeafLink(j);
    FirstLinkFromSomeLeaf(Leaves(j));
  }
}
