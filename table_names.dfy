/** `Base.__tablename__`: the table name a model class gets from its class
    name, `"_".join(re.findall("[A-Z][a-z]*", name)).lower()`. */
module TableNames {
  import opened TextOps

  /** The greedy end of a run of lower-case letters starting at `k`. */
  function LowerRunEnd(s: string, k: nat): (e: nat)
    requires k <= |s|
    ensures k <= e <= |s|
    ensures forall i | k <= i < e :: IsAsciiLower(s[i])
    ensures e == |s| || !IsAsciiLower(s[e])
    decreases |s| - k
  {
    if k == |s| || !IsAsciiLower(s[k]) then k else LowerRunEnd(s, k + 1)
  }

  /** A match of `[A-Z][a-z]*`. */
  predicate IsToken(t: string)
  {
    |t| > 0 && IsAsciiUpper(t[0]) && forall i | 1 <= i < |t| :: IsAsciiLower(t[i])
  }

  /** `re.findall("[A-Z][a-z]*", s)`: scanning left to right, every upper-case
      letter starts a match that takes the lower-case letters after it; any
      other character is passed over. */
  function Tokens(s: string): (r: seq<string>)
    ensures forall i | 0 <= i < |r| :: IsToken(r[i])
    decreases |s|
  {
    if s == [] then []
    else if IsAsciiUpper(s[0]) then
      var e := LowerRunEnd(s, 1);
      [s[..e]] + Tokens(s[e..])
    else Tokens(s[1..])
  }

  /** `__tablename__`. */
  function TableName(className: string): string
  {
    Lower(JoinWith(Tokens(className), '_'))
  }

  // ---------------------------------------------------------------------------
  // Reference definitions

  function UpperCount(s: string): nat
  {
    if s == [] then 0 else (if IsAsciiUpper(s[0]) then 1 else 0) + UpperCount(s[1..])
  }

  function Count(s: string, c: char): nat
  {
    if s == [] then 0 else (if s[0] == c then 1 else 0) + Count(s[1..], c)
  }

  /** The characters `findall` keeps, read one at a time: an upper-case
      letter, and a lower-case letter while the run an upper-case letter
      opened (`inRun`) goes on; everything else is dropped and ends the
      run. */
  function Keep(s: string, inRun: bool): (r: string)
    ensures forall i | 0 <= i < |r| :: IsAsciiLetter(r[i])
  {
    if s == [] then []
    else if IsAsciiUpper(s[0]) then [s[0]] + Keep(s[1..], true)
    else if IsAsciiLower(s[0]) && inRun then [s[0]] + Keep(s[1..], true)
    else Keep(s[1..], false)
  }

  function Flatten(parts: seq<string>): string
  {
    if parts == [] then [] else parts[0] + Flatten(parts[1..])
  }

  /** `s` with every `c` removed. */
  function Remove(s: string, c: char): string
  {
    if s == [] then [] else (if s[0] == c then [] else [s[0]]) + Remove(s[1..], c)
  }

  function LowerAll(parts: seq<string>): (r: seq<string>)
    ensures |r| == |parts|
    ensures forall i | 0 <= i < |r| :: r[i] == Lower(parts[i])
  {
    if parts == [] then [] else [Lower(parts[0])] + LowerAll(parts[1..])
  }

  // ---------------------------------------------------------------------------
  // What `findall` returns

  /** Upper-case letters are not in `s[k..e]`. */
  lemma {:induction false} UpperCountSkipsRun(s: string, k: nat, e: nat)
    requires k <= e <= |s|
    requires forall i | k <= i < e :: IsAsciiLower(s[i])
    ensures UpperCount(s[k..]) == UpperCount(s[e..])
    decreases e - k
  {
    if k < e {
      assert s[k..][1..] == s[k + 1..];
      UpperCountSkipsRun(s, k + 1, e);
    }
  }

  /** One match per upper-case letter. */
  lemma {:induction false} TokensCount(s: string)
    ensures |Tokens(s)| == UpperCount(s)
    decreases |s|
  {
    if s != [] {
      if IsAsciiUpper(s[0]) {
        var e := LowerRunEnd(s, 1);
        TokensCount(s[e..]);
        assert s[1..] == s[..][1..];
        UpperCountSkipsRun(s, 1, e);
      } else {
        TokensCount(s[1..]);
      }
    }
  }

  /** Inside a run, `Keep` copies the lower-case letters. */
  lemma {:induction false} KeepRun(s: string, k: nat, e: nat)
    requires k <= e <= |s|
    requires forall i | k <= i < e :: IsAsciiLower(s[i])
    ensures Keep(s[k..], true) == s[k..e] + Keep(s[e..], true)
    decreases e - k
  {
    if k < e {
      assert s[k..][1..] == s[k + 1..];
      KeepRun(s, k + 1, e);
      assert s[k..e] == [s[k]] + s[k + 1..e];
    }
  }

  /** A run ends at a character that is not a lower-case letter. */
  lemma KeepRunEnds(t: string)
    requires t == [] || !IsAsciiLower(t[0])
    ensures Keep(t, true) == Keep(t, false)
  {
  }

  /** The matches, put together, are exactly the characters `Keep` keeps. */
  lemma {:induction false} TokensKeep(s: string)
    ensures Flatten(Tokens(s)) == Keep(s, false)
    decreases |s|
  {
    if s != [] {
      if IsAsciiUpper(s[0]) {
        var e := LowerRunEnd(s, 1);
        var rest := s[e..];
        TokensKeep(rest);
        assert ([s[..e]] + Tokens(rest))[1..] == Tokens(rest);
        KeepRun(s, 1, e);
        KeepRunEnds(rest);
        assert s[..e] == [s[0]] + s[1..e];
      } else {
        TokensKeep(s[1..]);
      }
    }
  }

  // ---------------------------------------------------------------------------
  // Joining with `_`

  predicate IsLowerWord(t: string)
  {
    |t| > 0 && forall i | 0 <= i < |t| :: IsAsciiLower(t[i])
  }

  lemma LowerPieces(a: string, b: string)
    ensures Lower(a + b) == Lower(a) + Lower(b)
  {
  }

  /** Lower-casing the joined string lower-cases each piece: `_` stays. */
  lemma {:induction false} LowerJoin(parts: seq<string>)
    ensures Lower(JoinWith(parts, '_')) == JoinWith(LowerAll(parts), '_')
    decreases |parts|
  {
    if |parts| > 1 {
      LowerJoin(parts[1..]);
      LowerPieces(parts[0] + ['_'], JoinWith(parts[1..], '_'));
      LowerPieces(parts[0], ['_']);
      assert Lower(['_']) == ['_'];
      assert LowerAll(parts)[1..] == LowerAll(parts[1..]);
    }
  }

  /** A lower-cased match is a non-empty word of lower-case letters. */
  lemma LowerTokens(s: string)
    ensures forall i | 0 <= i < |Tokens(s)| :: IsLowerWord(LowerAll(Tokens(s))[i])
  {
  }

  /** Joining non-empty lower-case words with `_`: the characters are letters
      and `_`, the separators sit strictly between words, and there is one
      fewer separator than words. */
  lemma JoinFacts(parts: seq<string>)
    requires forall i | 0 <= i < |parts| :: IsLowerWord(parts[i])
    ensures var r := JoinWith(parts, '_');
      && (forall i | 0 <= i < |r| :: IsAsciiLower(r[i]) || r[i] == '_')
      && (r == [] <==> parts == [])
      && (r != [] ==> r[0] != '_' && r[|r| - 1] != '_')
      && (forall i | 0 <= i < |r| - 1 :: !(r[i] == '_' && r[i + 1] == '_'))
      && (parts != [] ==> Count(r, '_') == |parts| - 1)
      && Remove(r, '_') == Flatten(parts)
  {
    JoinShape(parts);
    JoinNoDouble(parts);
    JoinCount(parts);
    JoinRemove(parts);
  }

  lemma {:induction false} JoinShape(parts: seq<string>)
    requires forall i | 0 <= i < |parts| :: IsLowerWord(parts[i])
    ensures var r := JoinWith(parts, '_');
      && (forall i | 0 <= i < |r| :: IsAsciiLower(r[i]) || r[i] == '_')
      && (r == [] <==> parts == [])
      && (r != [] ==> IsAsciiLower(r[0]) && IsAsciiLower(r[|r| - 1]))
    decreases |parts|
  {
    if |parts| > 1 {
      JoinShape(parts[1..]);
      var r := JoinWith(parts, '_');
      var tail := JoinWith(parts[1..], '_');
      assert r == parts[0] + ['_'] + tail;
      assert r[|r| - 1] == tail[|tail| - 1];
      forall i | 0 <= i < |r| ensures IsAsciiLower(r[i]) || r[i] == '_' {
        if i > |parts[0]| {
          assert r[i] == tail[i - |parts[0]| - 1];
        }
      }
    }
  }

  lemma {:induction false} JoinNoDouble(parts: seq<string>)
    requires forall i | 0 <= i < |parts| :: IsLowerWord(parts[i])
    ensures var r := JoinWith(parts, '_');
      forall i | 0 <= i < |r| - 1 :: !(r[i] == '_' && r[i + 1] == '_')
    decreases |parts|
  {
    if |parts| > 1 {
      var head := parts[0];
      var tail := JoinWith(parts[1..], '_');
      JoinNoDouble(parts[1..]);
      JoinShape(parts[1..]);
      var r := JoinWith(parts, '_');
      assert r == head + ['_'] + tail;
      forall i | 0 <= i < |r| - 1
        ensures !(r[i] == '_' && r[i + 1] == '_')
      {
        if i == |head| {
          assert r[i + 1] == tail[0];
        } else if i > |head| {
          assert r[i] == tail[i - |head| - 1] && r[i + 1] == tail[i - |head|];
        }
      }
    }
  }

  lemma {:induction false} JoinCount(parts: seq<string>)
    requires forall i | 0 <= i < |parts| :: IsLowerWord(parts[i])
    ensures parts != [] ==> Count(JoinWith(parts, '_'), '_') == |parts| - 1
    decreases |parts|
  {
    if |parts| == 1 {
      NoUnderscore(parts[0]);
    } else if |parts| > 1 {
      var head := parts[0];
      var tail := JoinWith(parts[1..], '_');
      JoinCount(parts[1..]);
      NoUnderscore(head);
      CountConcat(head + ['_'], tail, '_');
      CountConcat(head, ['_'], '_');
    }
  }

  lemma {:induction false} JoinRemove(parts: seq<string>)
    requires forall i | 0 <= i < |parts| :: IsLowerWord(parts[i])
    ensures Remove(JoinWith(parts, '_'), '_') == Flatten(parts)
    decreases |parts|
  {
    if |parts| == 1 {
      NoUnderscore(parts[0]);
      assert parts[1..] == [];
      assert parts[0] + [] == parts[0];
    } else if |parts| > 1 {
      var head := parts[0];
      var tail := JoinWith(parts[1..], '_');
      JoinRemove(parts[1..]);
      NoUnderscore(head);
      RemoveConcat(head + ['_'], tail, '_');
      RemoveConcat(head, ['_'], '_');
    }
  }

  lemma {:induction false} NoUnderscore(t: string)
    requires forall i | 0 <= i < |t| :: IsAsciiLower(t[i])
    ensures Count(t, '_') == 0 && Remove(t, '_') == t
    decreases |t|
  {
    if t != [] {
      NoUnderscore(t[1..]);
      assert t == [t[0]] + t[1..];
    }
  }

  lemma {:induction false} CountConcat(a: string, b: string, c: char)
    ensures Count(a + b, c) == Count(a, c) + Count(b, c)
    decreases |a|
  {
    if a == [] {
      assert a + b == b;
    } else {
      assert (a + b)[1..] == a[1..] + b;
      CountConcat(a[1..], b, c);
    }
  }

  lemma {:induction false} RemoveConcat(a: string, b: string, c: char)
    ensures Remove(a + b, c) == Remove(a, c) + Remove(b, c)
    decreases |a|
  {
    if a == [] {
      assert a + b == b;
    } else {
      assert (a + b)[1..] == a[1..] + b;
      RemoveConcat(a[1..], b, c);
    }
  }

  lemma {:induction false} FlattenLower(parts: seq<string>)
    ensures Flatten(LowerAll(parts)) == Lower(Flatten(parts))
    decreases |parts|
  {
    if parts != [] {
      FlattenLower(parts[1..]);
      assert LowerAll(parts)[1..] == LowerAll(parts[1..]);
      LowerPieces(parts[0], Flatten(parts[1..]));
    }
  }

  // ---------------------------------------------------------------------------
  // What `__tablename__` returns

  /** A table name holds only lower-case letters and `_`; it is empty exactly
      when the class name has no upper-case letter; otherwise it neither
      starts nor ends with `_`, never doubles it, and has one `_` fewer than
      the class name has upper-case letters. */
  lemma TableNameShape(className: string)
    ensures var r := TableName(className);
      && (forall i | 0 <= i < |r| :: IsAsciiLower(r[i]) || r[i] == '_')
      && (r == [] <==> UpperCount(className) == 0)
      && (r != [] ==> r[0] != '_' && r[|r| - 1] != '_')
      && (forall i | 0 <= i < |r| - 1 :: !(r[i] == '_' && r[i + 1] == '_'))
      && (UpperCount(className) > 0 ==> Count(r, '_') == UpperCount(className) - 1)
  {
    var ts := Tokens(className);
    LowerJoin(ts);
    LowerTokens(className);
    JoinFacts(LowerAll(ts));
    TokensCount(className);
  }

  /** With the underscores taken out, a table name is the lower-cased
      characters `findall` keeps: every character outside an upper-case-led
      run of letters is dropped. */
  lemma TableNameLetters(className: string)
    ensures Remove(TableName(className), '_') == Lower(Keep(className, false))
  {
    var ts := Tokens(className);
    LowerJoin(ts);
    LowerTokens(className);
    JoinFacts(LowerAll(ts));
    FlattenLower(ts);
    TokensKeep(className);
  }

  /** A match followed by anything but a lower-case letter is the first
      match. */
  lemma TokensOfToken(t: string, rest: string)
    requires IsToken(t)
    requires rest == [] || !IsAsciiLower(rest[0])
    ensures Tokens(t + rest) == [t] + Tokens(rest)
  {
    var s := t + rest;
    assert forall i | 1 <= i < |t| :: s[i] == t[i];
    assert rest != [] ==> s[|t|] == rest[0];
    var e := LowerRunEnd(s, 1);
    assert e == |t|;
    assert s[..e] == t && s[e..] == rest;
  }

  /** Lower-casing a match changes only its first letter. */
  lemma LowerOfToken(t: string)
    requires IsToken(t)
    ensures Lower(t) == [LowerChar(t[0])] + t[1..]
  {
    var l := Lower(t);
    forall i | 0 <= i < |t| ensures l[i] == ([LowerChar(t[0])] + t[1..])[i] {
      if i > 0 {
        assert !IsAsciiUpper(t[i]);
      }
    }
  }

  /** A class name made of two capitalised words gets both, lower-cased and
      joined by `_`. */
  lemma TwoWordName(a: string, b: string)
    requires IsToken(a) && IsToken(b)
    ensures TableName(a + b) == [LowerChar(a[0])] + a[1..] + "_" + [LowerChar(b[0])] + b[1..]
  {
    LowerOfToken(a);
    LowerOfToken(b);
    TokensOfToken(a, b);
    TokensOfToken(b, []);
    assert b + [] == b;
    assert Tokens(a + b) == [a, b];
    assert [a, b][1..] == [b];
    assert JoinWith([a, b], '_') == a + "_" + b;
    LowerPieces(a + "_", b);
    LowerPieces(a, "_");
    assert Lower("_") == "_";
  }

  // Each class name below is written as the two capitalised words `findall`
  // splits it into, so that `TwoWordName` applies to it as it stands.

  /** The example of the documentation. */
  lemma LinkedEmailsName()
    ensures TableName("Linked" + "Emails") == "linked_emails"
  {
    TwoWordName("Linked", "Emails");
  }

  /** The table the foreign key of `unsubscribe_links` refers to. */
  lemma ScannedEmailsName()
    ensures TableName("Scanned" + "Emails") == "scanned_emails"
  {
    TwoWordName("Scanned", "Emails");
  }

  /** The table of the links found. */
  lemma UnsubscribeLinksName()
    ensures TableName("Unsubscribe" + "Links") == "unsubscribe_links"
  {
    TwoWordName("Unsubscribe", "Links");
  }

  /** The table of the invite codes. */
  lemma InviteCodesName()
    ensures TableName("Invite" + "Codes") == "invite_codes"
  {
    TwoWordName("Invite", "Codes");
  }

  /** `User` would get `user`, the reserved word its own `__tablename__`
      avoids by naming the table `users`. */
  lemma UserName()
    ensures TableName("User") == "user"
  {
    TokensOfToken("User", []);
    assert "User" + [] == "User";
  }
}
