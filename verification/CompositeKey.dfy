/** Keys made of parts joined by a separator: `document:ruleset:version` and `ruleset@version`. */
module CompositeKey {
  import opened Collections

  ghost predicate Free(s: string, sep: char) {
    sep !in s
  }

  /** `s.split(sep)` for a one-character separator. */
  function Split(s: string, sep: char): (parts: seq<string>)
    ensures |parts| >= 1
  {
    if s == [] then [[]]
    else
      var rest := Split(s[1..], sep);
      if s[0] == sep then [[]] + rest else [[s[0]] + rest[0]] + rest[1..]
  }

  /** `parts.join(sep)`. */
  function Join(parts: seq<string>, sep: char): string
    requires |parts| >= 1
  {
    if |parts| == 1 then parts[0] else parts[0] + [sep] + Join(parts[1..], sep)
  }

  lemma {:induction false} JoinSplit(s: string, sep: char)
    ensures Join(Split(s, sep), sep) == s
    ensures forall i :: 0 <= i < |Split(s, sep)| ==> Free(Split(s, sep)[i], sep)
  {
    if s == [] {
    } else {
      JoinSplit(s[1..], sep);
      var rest := Split(s[1..], sep);
      if s[0] == sep {
        assert ([[]] + rest)[1..] == rest;
      } else if |rest| > 1 {
        assert Split(s, sep)[1..] == rest[1..];
      }
    }
  }

  lemma {:induction false} SplitFree(s: string, sep: char)
    requires Free(s, sep)
    ensures Split(s, sep) == [s]
  {
    if s == [] {
    } else {
      SplitFree(s[1..], sep);
      assert [s[0]] + s[1..] == s;
    }
  }

  lemma {:induction false} SplitAtFirst(a: string, b: string, sep: char)
    requires Free(a, sep)
    ensures Split(a + [sep] + b, sep) == [a] + Split(b, sep)
  {
    var s := a + [sep] + b;
    if a == [] {
      assert s[1..] == b;
    } else {
      assert s[1..] == a[1..] + [sep] + b;
      SplitAtFirst(a[1..], b, sep);
      assert [a[0]] + a[1..] == a;
    }
  }

  datatype Parts = Parts(documentId: string, rulesetName: string, rulesetVersion: string)

  function Make(documentId: string, rulesetName: string, rulesetVersion: string): string {
    documentId + ":" + rulesetName + ":" + rulesetVersion
  }

  function Parse(key: string): Option<Parts> {
    var parts := Split(key, ':');
    if |parts| != 3 then None else Some(Parts(parts[0], parts[1], parts[2]))
  }

  ghost predicate ColonFree(d: string, r: string, v: string) {
    Free(d, ':') && Free(r, ':') && Free(v, ':')
  }

  /** Parsing undoes making exactly when no part holds a colon. */
  lemma ParseMake(d: string, r: string, v: string)
    ensures Parse(Make(d, r, v)) == Some(Parts(d, r, v)) <==> ColonFree(d, r, v)
  {
    if ColonFree(d, r, v) {
      assert Make(d, r, v) == d + [':'] + (r + [':'] + v);
      SplitAtFirst(d, r + [':'] + v, ':');
      SplitAtFirst(r, v, ':');
      SplitFree(v, ':');
    }
    JoinSplit(Make(d, r, v), ':');
  }

  /** Making undoes parsing, whatever the key. */
  lemma MakeParse(key: string)
    requires Parse(key).Some?
    ensures var p := Parse(key).value; Make(p.documentId, p.rulesetName, p.rulesetVersion) == key
  {
    var parts := Split(key, ':');
    JoinSplit(key, ':');
    assert Join(parts, ':') == parts[0] + [':'] + Join(parts[1..], ':');
    assert Join(parts[1..], ':') == parts[1] + [':'] + Join(parts[1..][1..], ':');
    assert parts[1..][1..] == [parts[2]];
  }

  lemma {:induction false} SplitCounts(a: string, b: string, sep: char)
    ensures |Split(a + [sep] + b, sep)| == |Split(a, sep)| + |Split(b, sep)|
  {
    var s := a + [sep] + b;
    if a == [] {
      assert s[1..] == b;
    } else {
      assert s[1..] == a[1..] + [sep] + b;
      SplitCounts(a[1..], b, sep);
    }
  }

  lemma OnePartIsFree(s: string, sep: char)
    requires |Split(s, sep)| == 1
    ensures Free(s, sep)
  {
    JoinSplit(s, sep);
  }

  /** A triple that shares its key with a colon-free one is that one: the key has no colon to spare. */
  lemma MakeInjective(d: string, r: string, v: string, d': string, r': string, v': string)
    requires ColonFree(d, r, v)
    ensures Make(d, r, v) == Make(d', r', v') <==> d == d' && r == r' && v == v'
  {
    if Make(d, r, v) == Make(d', r', v') {
      assert Make(d, r, v) == d + [':'] + (r + [':'] + v);
      assert Make(d', r', v') == d' + [':'] + (r' + [':'] + v');
      SplitCounts(d, r + [':'] + v, ':');
      SplitCounts(r, v, ':');
      SplitFree(d, ':');
      SplitFree(r, ':');
      SplitFree(v, ':');
      SplitCounts(d', r' + [':'] + v', ':');
      SplitCounts(r', v', ':');
      OnePartIsFree(d', ':');
      OnePartIsFree(r', ':');
      OnePartIsFree(v', ':');
      ParseMake(d, r, v);
      ParseMake(d', r', v');
    }
  }

  lemma CutAt(s: string, sep: char) returns (a: string, b: string)
    requires !Free(s, sep)
    ensures s == a + [sep] + b
  {
    var i :| 0 <= i < |s| && s[i] == sep;
    a, b := s[..i], s[i + 1..];
  }

  /** A colon inside a part can be read as the boundary of another triple. */
  lemma Collision(d: string, r: string, v: string) returns (p: Parts)
    requires !ColonFree(d, r, v)
    ensures p != Parts(d, r, v) && Make(p.documentId, p.rulesetName, p.rulesetVersion) == Make(d, r, v)
  {
    if !Free(d, ':') {
      var a, b := CutAt(d, ':');
      p := Parts(a, b + [':'] + r, v);
      assert |a| < |d|;
    } else if !Free(r, ':') {
      var a, b := CutAt(r, ':');
      p := Parts(d + [':'] + a, b, v);
      assert |p.documentId| > |d|;
    } else {
      var a, b := CutAt(v, ':');
      p := Parts(d, r + [':'] + a, b);
      assert |p.rulesetName| > |r|;
    }
  }

  /** A triple has its key to itself exactly when no part of it holds a colon. */
  lemma KeyIsUnique(d: string, r: string, v: string)
    ensures (forall p: Parts :: Make(p.documentId, p.rulesetName, p.rulesetVersion) == Make(d, r, v) ==>
               p == Parts(d, r, v))
            <==> ColonFree(d, r, v)
  {
    hide Make, ColonFree;
    if ColonFree(d, r, v) {
      forall p: Parts | Make(p.documentId, p.rulesetName, p.rulesetVersion) == Make(d, r, v)
        ensures p == Parts(d, r, v)
      {
        MakeInjective(d, r, v, p.documentId, p.rulesetName, p.rulesetVersion);
      }
    } else {
      var p := Collision(d, r, v);
    }
  }

  /** Two different triples with a colon in a part can share a key. */
  lemma MakeCollides()
    ensures Make("a:b", "c", "d") == Make("a", "b:c", "d")
    ensures Parse(Make("a:b", "c", "d")) == None
  {
    SplitAtFirst("a", "b:c:d", ':');
    SplitAtFirst("b", "c:d", ':');
    SplitAtFirst("c", "d", ':');
    SplitFree("d", ':');
    assert Make("a:b", "c", "d") == "a" + [':'] + "b:c:d";
    assert "b:c:d" == "b" + [':'] + "c:d";
    assert "c:d" == "c" + [':'] + "d";
  }
}
