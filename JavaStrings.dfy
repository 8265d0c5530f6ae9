/** The two java.lang.String operations the registries rely on: split(",") and trim(). */
module JavaStrings {

  /** The delimiter both registries split their name list on. */
  const DELIMITER: char := ','

  /** Every piece between delimiters, empty pieces included (what split(",", -1) would give). */
  function Pieces(s: string): (ps: seq<string>)
    ensures |ps| >= 1
    ensures forall i :: 0 <= i < |ps| ==> DELIMITER !in ps[i]
  {
    if s == [] then [[]]
    else
      var rest := Pieces(s[1..]);
      if s[0] == DELIMITER then [[]] + rest
      else [[s[0]] + rest[0]] + rest[1..]
  }

  /** The pieces glued back together with the delimiter between neighbours. */
  function Join(ps: seq<string>): string
    requires |ps| >= 1
  {
    if |ps| == 1 then ps[0] else ps[0] + [DELIMITER] + Join(ps[1..])
  }

  /** Splitting loses nothing: re-joining the pieces gives the input back. */
  lemma {:induction false} JoinPieces(s: string)
    ensures Join(Pieces(s)) == s
  {
    if s != [] {
      JoinPieces(s[1..]);
      var rest := Pieces(s[1..]);
      if s[0] != DELIMITER {
        if |rest| > 1 {
          assert Join(rest) == rest[0] + [DELIMITER] + Join(rest[1..]);
          assert ([[s[0]] + rest[0]] + rest[1..])[1..] == rest[1..];
        }
      } else {
        assert ([[]] + rest)[1..] == rest;
      }
    }
  }

  /** A string without delimiter is a single piece. */
  lemma {:induction false} PiecesOfPlain(t: string)
    requires DELIMITER !in t
    ensures Pieces(t) == [t]
  {
    if t != [] {
      PiecesOfPlain(t[1..]);
      assert [t[0]] + t[1..] == t;
    }
  }

  /** A delimiter-free prefix followed by a delimiter becomes the first piece. */
  lemma {:induction false} PiecesOfPrefix(t: string, u: string)
    requires DELIMITER !in t
    ensures Pieces(t + [DELIMITER] + u) == [t] + Pieces(u)
  {
    if t == [] {
      assert t + [DELIMITER] + u == [DELIMITER] + u;
      assert ([DELIMITER] + u)[1..] == u;
    } else {
      PiecesOfPrefix(t[1..], u);
      var s := t + [DELIMITER] + u;
      assert s[0] == t[0] && s[1..] == t[1..] + [DELIMITER] + u;
      assert [t[0]] + t[1..] == t;
    }
  }

  /** Joining delimiter-free pieces and splitting again gives the same pieces. */
  lemma {:induction false} PiecesJoin(ps: seq<string>)
    requires |ps| >= 1
    requires forall i :: 0 <= i < |ps| ==> DELIMITER !in ps[i]
    ensures Pieces(Join(ps)) == ps
  {
    if |ps| == 1 {
      PiecesOfPlain(ps[0]);
    } else {
      PiecesJoin(ps[1..]);
      PiecesOfPrefix(ps[0], Join(ps[1..]));
      assert [ps[0]] + ps[1..] == ps;
    }
  }

  /** The pieces with the empty ones at the end removed, as split does for a limit of 0. */
  function DropTrailingEmpty(ps: seq<string>): (r: seq<string>)
    ensures r <= ps
    ensures r == [] || r[|r| - 1] != []
    ensures forall i :: |r| <= i < |ps| ==> ps[i] == []
  {
    if ps == [] then []
    else if ps[|ps| - 1] == [] then DropTrailingEmpty(ps[..|ps| - 1])
    else ps
  }

  /** String.split(","): a string without the delimiter is returned whole (so "" gives [""]);
      otherwise the pieces, with the trailing empty ones dropped. So the tokens are delimiter-free, a
      prefix of the pieces that drops only empty pieces, and the last token is non-empty whenever a
      delimiter occurred. */
  function Split(s: string): (r: seq<string>)
    ensures forall i :: 0 <= i < |r| ==> DELIMITER !in r[i]
    ensures r <= Pieces(s)
    ensures forall i :: |r| <= i < |Pieces(s)| ==> Pieces(s)[i] == []
    ensures DELIMITER in s ==> r == [] || r[|r| - 1] != []
    ensures DELIMITER !in s ==> r == [s]
  {
    if DELIMITER !in s then
      PiecesOfPlain(s);
      [s]
    else DropTrailingEmpty(Pieces(s))
  }

  /** split keeps a lone empty string but drops the two empty pieces of a lone delimiter. */
  lemma SplitOfEmptyAndDelimiter()
    ensures Split("") == [""]
    ensures Split(",") == []
  {
    PiecesOfPlain("");
    PiecesOfPrefix("", "");
    assert "," == "" + [DELIMITER] + "";
  }

  /** Splitting a join of two or more delimiter-free pieces gives them back without the trailing empty
      ones; a single piece comes back whole. */
  lemma SplitJoin(ps: seq<string>)
    requires |ps| >= 1
    requires forall i :: 0 <= i < |ps| ==> DELIMITER !in ps[i]
    ensures |ps| == 1 ==> Split(Join(ps)) == ps
    ensures |ps| >= 2 ==> Split(Join(ps)) == DropTrailingEmpty(ps)
  {
    PiecesJoin(ps);
    if |ps| >= 2 {
      assert Join(ps) == ps[0] + [DELIMITER] + Join(ps[1..]);
      assert Join(ps)[|ps[0]|] == DELIMITER;
    }
  }

  /** A trailing delimiter yields no trailing empty token. */
  lemma SplitTrailingDelimiter()
    ensures Split("pobi,woni,") == ["pobi", "woni"]
  {
    var ps := ["pobi", "woni", ""];
    assert Join(ps[2..]) == "";
    assert Join(ps[1..]) == "woni,";
    assert Join(ps) == "pobi,woni,";
    SplitJoin(ps);
    assert ps[..2] == ["pobi", "woni"];
  }

  /** split does not trim: the blank after a delimiter stays in the next token. */
  lemma SplitKeepsBlanks()
    ensures Split("pobi, pobi") == ["pobi", " pobi"]
  {
    var ps := ["pobi", " pobi"];
    assert Join(ps[1..]) == " pobi";
    assert Join(ps) == "pobi, pobi";
    SplitJoin(ps);
  }

  /** The characters String.trim() removes: every code point up to and including the space. */
  predicate IsTrimmable(c: char)
  {
    c <= ' '
  }

  /** s without its leading trimmable characters. */
  function TrimStart(s: string): string
  {
    if s != [] && IsTrimmable(s[0]) then TrimStart(s[1..]) else s
  }

  /** TrimStart keeps a suffix, cuts off only trimmable characters and leaves none in front. */
  lemma {:induction false} TrimStartSpec(s: string)
    ensures |TrimStart(s)| <= |s| && TrimStart(s) == s[|s| - |TrimStart(s)|..]
    ensures forall i :: 0 <= i < |s| - |TrimStart(s)| ==> IsTrimmable(s[i])
    ensures TrimStart(s) == [] || !IsTrimmable(TrimStart(s)[0])
  {
    if s != [] && IsTrimmable(s[0]) {
      TrimStartSpec(s[1..]);
      assert forall i :: 1 <= i < |s| ==> s[1..][i - 1] == s[i];
    }
  }

  /** s without its trailing trimmable characters. */
  function TrimEnd(s: string): string
  {
    if s != [] && IsTrimmable(s[|s| - 1]) then TrimEnd(s[..|s| - 1]) else s
  }

  /** TrimEnd keeps a prefix, cuts off only trimmable characters and leaves none at the back. */
  lemma {:induction false} TrimEndSpec(s: string)
    ensures |TrimEnd(s)| <= |s| && TrimEnd(s) == s[..|TrimEnd(s)|]
    ensures forall i :: |TrimEnd(s)| <= i < |s| ==> IsTrimmable(s[i])
    ensures TrimEnd(s) == [] || !IsTrimmable(TrimEnd(s)[|TrimEnd(s)| - 1])
  {
    if s != [] && IsTrimmable(s[|s| - 1]) {
      TrimEndSpec(s[..|s| - 1]);
    }
  }

  /** String.trim(): what it leaves neither starts nor ends with a trimmable character. */
  function Trim(s: string): (r: string)
    ensures r == [] || (!IsTrimmable(r[0]) && !IsTrimmable(r[|r| - 1]))
  {
    TrimStartSpec(s);
    TrimEndSpec(TrimStart(s));
    var r := TrimEnd(TrimStart(s));
    assert r != [] ==> r[0] == TrimStart(s)[0];
    r
  }

  /** trim() keeps a contiguous slice s[lo..hi] of the input and everything it cuts off is trimmable. */
  lemma TrimSlice(s: string)
    ensures exists lo, hi ::
              && 0 <= lo <= hi <= |s| && Trim(s) == s[lo..hi]
              && (forall i :: 0 <= i < lo ==> IsTrimmable(s[i]))
              && (forall i :: hi <= i < |s| ==> IsTrimmable(s[i]))
  {
    var t := TrimStart(s);
    TrimStartSpec(s);
    var r := TrimEnd(t);
    TrimEndSpec(t);
    var lo := |s| - |t|;
    var hi := lo + |r|;
    assert r == s[lo..][..|r|];
    assert s[lo..][..|r|] == s[lo..hi];
    forall i | hi <= i < |s|
      ensures IsTrimmable(s[i])
    {
      assert s[i] == t[i - lo];
    }
    assert Trim(s) == s[lo..hi];
  }

  /** trim removes a leading blank and leaves a blank-free name alone. */
  lemma TrimLeadingBlank()
    ensures Trim("pobi") == Trim(" pobi") == "pobi"
  {
    assert " pobi"[1..] == "pobi";
    assert TrimStart("pobi") == "pobi";
    assert TrimEnd("pobi") == "pobi";
  }

  /** Trimming twice changes nothing. */
  lemma TrimIdempotent(s: string)
    ensures Trim(Trim(s)) == Trim(s)
  {
    var r := Trim(s);
    assert TrimStart(r) == r;
  }
}
