/** The two string normalisations of the extension server: the domain key
    that every store operation uses (`get_predict_name`) and the client
    identity derived from the remote address (`replace('::ffff:', '')`). */
module Names {

  /** The prefix that `get_predict_name` strips once. */
  const Www: string := "www."

  /** The IPv6-mapped-IPv4 marker removed from remote addresses. */
  const MappedPrefix: string := "::ffff:"

  // ---------------------------------------------------------------------
  // Lower-casing (Python's str.lower, on ASCII letters)
  // ---------------------------------------------------------------------

  predicate IsUpper(c: char) {
    'A' <= c <= 'Z'
  }

  /** True iff no character of `s` is an upper-case letter. */
  predicate NoUpper(s: string) {
    forall i :: 0 <= i < |s| ==> !IsUpper(s[i])
  }

  function LowerChar(c: char): (d: char)
    ensures !IsUpper(d)
    ensures IsUpper(c) ==> d as int == c as int + 32
    ensures !IsUpper(c) ==> d == c
  {
    if IsUpper(c) then (c as int + 32) as char else c
  }

  /** `s.lower()`: every letter mapped to lower case, nothing else touched. */
  function Lower(s: string): (r: string)
    ensures |r| == |s|
    ensures NoUpper(r)
  {
    seq(|s|, i requires 0 <= i < |s| => LowerChar(s[i]))
  }

  predicate StartsWith(s: string, prefix: string) {
    |prefix| <= |s| && s[..|prefix|] == prefix
  }

  // ---------------------------------------------------------------------
  // get_predict_name
  // ---------------------------------------------------------------------

  /** The domain key: `domain` lower-cased, with one leading "www." removed.
      Putting the removed prefix back gives the lower-cased input. */
  function PredictName(domain: string): (name: string)
    ensures NoUpper(name)
    ensures |name| <= |domain|
    ensures StartsWith(Lower(domain), Www) ==> Lower(domain) == Www + name
    ensures !StartsWith(Lower(domain), Www) ==> Lower(domain) == name
  {
    var d := Lower(domain);
    if StartsWith(d, Www) then d[|Www|..] else d
  }

  lemma LowerAppend(a: string, b: string)
    ensures Lower(a + b) == Lower(a) + Lower(b)
  {
    assert forall i :: 0 <= i < |a| ==> (a + b)[i] == a[i];
    assert forall i :: |a| <= i < |a| + |b| ==> (a + b)[i] == b[i - |a|];
  }

  /** Lower-casing a string that has no upper-case letter changes nothing. */
  lemma LowerOfLower(s: string)
    requires NoUpper(s)
    ensures Lower(s) == s
  {
  }

  /** Inputs that agree up to letter case have the same domain key. */
  lemma PredictNameIgnoresCase(d1: string, d2: string)
    requires |d1| == |d2|
    requires forall i :: 0 <= i < |d1| ==> LowerChar(d1[i]) == LowerChar(d2[i])
    ensures PredictName(d1) == PredictName(d2)
  {
    assert Lower(d1) == Lower(d2);
  }

  /** A single leading "www." in any letter case is ignored: prefixing a
      domain whose lower-cased form does not itself start with "www." by
      such a prefix leaves its key unchanged. */
  lemma PredictNameIgnoresWwwPrefix(p: string, d: string)
    requires Lower(p) == Www
    requires !StartsWith(Lower(d), Www)
    ensures PredictName(p + d) == PredictName(d)
    ensures PredictName(p + d) == Lower(d)
  {
    LowerAppend(p, d);
    assert Lower(p + d) == Www + Lower(d);
    assert StartsWith(Lower(p + d), Www);
  }

  /** The key is empty exactly for the empty domain and for "www." in any
      letter case. */
  lemma PredictNameEmpty(d: string)
    ensures PredictName(d) == "" <==> d == "" || Lower(d) == Www
  {
    if PredictName(d) == "" {
      if StartsWith(Lower(d), Www) {
        assert Lower(d) == Www + "";
      }
    }
  }

  /** Applying get_predict_name to its own result changes it exactly when the
      result still starts with "www."; so the function is not idempotent. */
  lemma PredictNameIdempotentIff(d: string)
    ensures PredictName(PredictName(d)) == PredictName(d) <==> !StartsWith(PredictName(d), Www)
  {
    var n := PredictName(d);
    LowerOfLower(n);
    if StartsWith(n, Www) {
      assert |PredictName(n)| == |n| - 4;
    }
  }

  /** The three spellings of one site share the key "example.com". */
  lemma PredictNameExamples()
    ensures PredictName("WWW.Example.COM") == "example.com"
    ensures PredictName("www.example.com") == "example.com"
    ensures PredictName("example.com") == "example.com"
  {
    ExampleUpper();
    ExampleLower();
    ExampleBare();
  }

  lemma ExampleUpper()
    ensures PredictName("WWW.Example.COM") == "example.com"
  {
    assert Lower("Example.COM") == "example.com";
    assert "WWW.Example.COM" == "WWW." + "Example.COM";
    assert Lower("WWW.") == Www;
    assert !StartsWith("example.com", Www) by {
      assert "example.com"[..4][0] != Www[0];
    }
    PredictNameIgnoresWwwPrefix("WWW.", "Example.COM");
  }

  lemma ExampleLower()
    ensures PredictName("www.example.com") == "example.com"
  {
    assert Lower("example.com") == "example.com";
    assert "www.example.com" == "www." + "example.com";
    assert Lower("www.") == Www;
    assert !StartsWith("example.com", Www) by {
      assert "example.com"[..4][0] != Www[0];
    }
    PredictNameIgnoresWwwPrefix("www.", "example.com");
  }

  lemma ExampleBare()
    ensures PredictName("example.com") == "example.com"
  {
    assert Lower("example.com") == "example.com";
    assert !StartsWith("example.com", Www) by {
      assert "example.com"[..4][0] != Www[0];
    }
  }

  /** Only one prefix is stripped: "www.www.x" keys as "www.x", which in turn
      keys as "x"; and the bare "www." keys as the empty string. */
  lemma PredictNameStripsOnce()
    ensures PredictName("www.www.x") == "www.x"
    ensures PredictName("www.x") == "x"
    ensures PredictName("www.") == ""
  {
    LowerOfLower("www.www.x");
    LowerOfLower("www.x");
    LowerOfLower("www.");
  }

  // ---------------------------------------------------------------------
  // replace('::ffff:', '')
  // ---------------------------------------------------------------------

  predicate OccursAt(s: string, pat: string, i: int) {
    0 <= i && i + |pat| <= |s| && s[i..i + |pat|] == pat
  }

  predicate Contains(s: string, pat: string) {
    exists i | 0 <= i <= |s| - |pat| :: OccursAt(s, pat, i)
  }

  lemma ContainsTail(s: string, pat: string)
    requires |s| > 0 && !OccursAt(s, pat, 0)
    ensures Contains(s, pat) <==> Contains(s[1..], pat)
  {
    if Contains(s, pat) {
      var i :| 0 <= i <= |s| - |pat| && OccursAt(s, pat, i);
      assert i > 0;
      assert s[1..][i - 1..i - 1 + |pat|] == s[i..i + |pat|];
      assert OccursAt(s[1..], pat, i - 1);
    }
    if Contains(s[1..], pat) {
      var i :| 0 <= i <= |s[1..]| - |pat| && OccursAt(s[1..], pat, i);
      assert s[1..][i..i + |pat|] == s[i + 1..i + 1 + |pat|];
      assert OccursAt(s, pat, i + 1);
    }
  }

  /** Python's `s.replace(pat, '')` for a non-empty `pat`: scanning left to
      right, every non-overlapping occurrence is removed. */
  function RemoveAll(s: string, pat: string): (r: string)
    requires |pat| > 0
    ensures |r| <= |s|
    decreases |s|
  {
    if |s| < |pat| then s
    else if s[..|pat|] == pat then RemoveAll(s[|pat|..], pat)
    else [s[0]] + RemoveAll(s[1..], pat)
  }

  /** The removal shortens the string exactly when the pattern occurs in it,
      and leaves a string without an occurrence as it is. */
  lemma {:induction false} RemoveAllShortensIff(s: string, pat: string)
    requires |pat| > 0
    ensures |RemoveAll(s, pat)| == |s| <==> !Contains(s, pat)
    ensures !Contains(s, pat) ==> RemoveAll(s, pat) == s
    decreases |s|
  {
    if |s| < |pat| {
      assert !Contains(s, pat);
    } else if s[..|pat|] == pat {
      assert OccursAt(s, pat, 0);
    } else {
      assert !OccursAt(s, pat, 0);
      ContainsTail(s, pat);
      RemoveAllShortensIff(s[1..], pat);
      assert s == [s[0]] + s[1..];
    }
  }

  /** The client identity: the remote address with every "::ffff:" removed. */
  function ClientIp(remoteAddr: string): (client: string)
    ensures |client| <= |remoteAddr|
    ensures client == remoteAddr <==> !Contains(remoteAddr, MappedPrefix)
  {
    RemoveAllShortensIff(remoteAddr, MappedPrefix);
    RemoveAll(remoteAddr, MappedPrefix)
  }

  /** An IPv6-mapped IPv4 address loses its marker; the dotted IPv4 part,
      having no colon, is kept as it is. */
  lemma ClientIpOfMapped(a: string)
    requires forall i :: 0 <= i < |a| ==> a[i] != ':'
    ensures ClientIp(MappedPrefix + a) == a
  {
    forall i | 0 <= i <= |a| - |MappedPrefix|
      ensures !OccursAt(a, MappedPrefix, i)
    {
      assert a[i..i + 7][0] == a[i];
    }
    RemoveAllShortensIff(a, MappedPrefix);
    var s := MappedPrefix + a;
    assert s[..7] == MappedPrefix;
    assert s[7..] == a;
  }

  lemma ClientIpExample()
    ensures ClientIp("::ffff:1.2.3.4") == "1.2.3.4"
  {
    ClientIpOfMapped("1.2.3.4");
    assert "::ffff:1.2.3.4" == MappedPrefix + "1.2.3.4";
  }

  /** Removal finds the leftmost occurrence: when none starts inside `x`,
      `x` is copied through, the occurrence right after it is removed, and
      the removal goes on after it. With the unchanged result of
      `RemoveAllShortensIff` for a string without an occurrence, this fixes
      the result for every input. */
  lemma {:induction false} RemoveAllAfterClearPrefix(x: string, pat: string, y: string)
    requires |pat| > 0
    requires forall i :: 0 <= i < |x| ==> !OccursAt(x + pat + y, pat, i)
    ensures RemoveAll(x + pat + y, pat) == x + RemoveAll(y, pat)
    decreases |x|
  {
    var s := x + pat + y;
    if x == [] {
      assert s == pat + y;
      assert s[..|pat|] == pat;
      assert s[|pat|..] == y;
    } else {
      assert !OccursAt(s, pat, 0);
      assert s[0] == x[0];
      assert s[1..] == x[1..] + pat + y;
      forall i | 0 <= i < |x[1..]|
        ensures !OccursAt(x[1..] + pat + y, pat, i)
      {
        assert !OccursAt(s, pat, i + 1);
        assert s[1..][i..i + |pat|] == s[i + 1..i + 1 + |pat|];
      }
      RemoveAllAfterClearPrefix(x[1..], pat, y);
      calc {
        RemoveAll(s, pat);
        [x[0]] + RemoveAll(x[1..] + pat + y, pat);
        [x[0]] + (x[1..] + RemoveAll(y, pat));
        { assert x == [x[0]] + x[1..]; }
        x + RemoveAll(y, pat);
      }
    }
  }

  /** Every "::ffff:" is removed wherever it occurs: the text before the
      leftmost marker is kept and the rest of the address is normalised in
      turn. */
  lemma ClientIpRemovesEveryMarker(x: string, y: string)
    requires forall i :: 0 <= i < |x| ==> !OccursAt(x + MappedPrefix + y, MappedPrefix, i)
    ensures ClientIp(x + MappedPrefix + y) == x + ClientIp(y)
  {
    RemoveAllAfterClearPrefix(x, MappedPrefix, y);
  }

  /** No "::" in `s`, and `s` does not end with ':'. */
  predicate NoMarkerStart(s: string) {
    forall i :: 0 <= i < |s| ==> s[i] != ':' || (i + 1 < |s| && s[i + 1] != ':')
  }

  /** A marker starts with "::", so none starts inside a prefix that holds
      no "::" and does not end with ':', such as `2001:db8`. */
  lemma NoMarkerBefore(x: string, y: string)
    requires NoMarkerStart(x)
    ensures forall i :: 0 <= i < |x| ==> !OccursAt(x + MappedPrefix + y, MappedPrefix, i)
  {
    var s := x + MappedPrefix + y;
    forall i | 0 <= i < |x|
      ensures !OccursAt(s, MappedPrefix, i)
    {
      var w := s[i..i + 7];
      assert w[0] == s[i] == x[i];
      assert x[i] != ':' || (i + 1 < |x| && x[i + 1] != ':');
      if x[i] != ':' {
        assert w[0] != MappedPrefix[0];
      } else {
        assert w[1] == s[i + 1] == x[i + 1];
        assert w[1] != MappedPrefix[1];
      }
    }
  }

  /** The IPv6 peer `2001:db8::ffff:1.2.3.4` loses its embedded marker. */
  lemma ClientIpEmbeddedMarker()
    ensures ClientIp("2001:db8" + MappedPrefix + "1.2.3.4") == "2001:db8" + "1.2.3.4"
  {
    EmbeddedMarkerParts();
    ClientIpOneMarker("2001:db8", "1.2.3.4");
  }


  /** The parts of `2001:db8::ffff:1.2.3.4` around its marker. */
  lemma EmbeddedMarkerParts()
    ensures NoMarkerStart("2001:db8")
    ensures forall i :: 0 <= i < |"1.2.3.4"| ==> "1.2.3.4"[i] != ':'
  {
    var x := "2001:db8";
    forall i | 0 <= i < |x|
      ensures x[i] != ':' || (i + 1 < |x| && x[i + 1] != ':')
    {
      if i == 4 {
        assert x[5] == 'd';
      }
    }
  }

  /** A colon-free address is its own client identity. */
  lemma ClientIpOfColonFree(y: string)
    requires forall i :: 0 <= i < |y| ==> y[i] != ':'
    ensures ClientIp(y) == y
  {
    ClientIpOfMapped(y);
    NoMarkerBefore([], y);
    ClientIpRemovesEveryMarker([], y);
    assert [] + MappedPrefix + y == MappedPrefix + y;
  }

  /** Two markers in a row both go. */
  lemma ClientIpTwoMarkers()
    ensures ClientIp("::ffff:::ffff:1") == "1"
  {
    ClientIpOfMapped("1");
    ClientIpRemovesEveryMarker("", MappedPrefix + "1");
    assert "::ffff:::ffff:1" == "" + MappedPrefix + (MappedPrefix + "1");
  }

  /** Because a marker is removed anywhere, two distinct IPv6 peers can end
      up with the same client identity. */
  lemma ClientIpCollision()
    ensures ClientIp("1::ffff:23") == "123"
    ensures ClientIp("12::ffff:3") == "123"
  {
    ClientIpCollisionLeft();
    ClientIpCollisionRight();
  }

  lemma ClientIpCollisionLeft()
    ensures ClientIp("1::ffff:23") == "123"
  {
    ClientIpOneMarker("1", "23");
    assert "1::ffff:23" == "1" + MappedPrefix + "23";
  }

  lemma ClientIpCollisionRight()
    ensures ClientIp("12::ffff:3") == "123"
  {
    ClientIpOneMarker("12", "3");
    assert "12::ffff:3" == "12" + MappedPrefix + "3";
  }

  /** A single marker, after a prefix holding no "::" and not ending with
      ':' and before a colon-free tail, is all that is removed. */
  lemma ClientIpOneMarker(x: string, y: string)
    requires NoMarkerStart(x)
    requires forall i :: 0 <= i < |y| ==> y[i] != ':'
    ensures ClientIp(x + MappedPrefix + y) == x + y
  {
    ClientIpOfColonFree(y);
    NoMarkerBefore(x, y);
    ClientIpRemovesEveryMarker(x, y);
  }
}
