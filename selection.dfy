/**
 * How the manager resolves what the operator typed into one user of a list: a number
 * picks by position (0 cancels), otherwise an exact name, otherwise the single user whose
 * name contains the input ignoring ASCII case. Any other input selects nobody.
 */
module Selection {
  import opened Wrappers
  import opened Text

  /** The sentinel returned for the input 0: the operator goes back to the menu. */
  const Cancel: string := "CANCEL"

  /** The input occurs in the user's name, ignoring the case of ASCII letters. */
  predicate Matches(user: string, input: string) {
    Contains(Lower(user), Lower(input))
  }

  /** The users whose name contains the input, in list order. */
  function MatchingUsers(users: seq<string>, input: string): (r: seq<string>)
    ensures |r| <= |users|
    ensures forall u :: u in r <==> u in users && Matches(u, input)
    ensures forall u :: multiset(r)[u] == if Matches(u, input) then multiset(users)[u] else 0
  {
    if users == [] then []
    else
      var init := users[..|users| - 1];
      var last := users[|users| - 1];
      assert users == init + [last];
      MatchingUsers(init, input) + (if Matches(last, input) then [last] else [])
  }

  /**
   * The user the input selects, `Cancel`, or nothing: an empty list or a blank input
   * select nothing; an input `int()` accepts selects by position; any other input selects
   * itself when it is a name of the list, else its only case-insensitive match.
   */
  function SelectUser(users: seq<string>, input: string): (r: Option<string>)
    ensures users == [] || Strip(input) == [] ==> r == None
    ensures r.Some? ==> r.value in users || r.value == Cancel
    ensures r == Some(Cancel) && Cancel !in users ==> ParseInt(input) == Some(0)
  {
    if users == [] then None
    else if Strip(input) == [] then None
    else
      match ParseInt(input)
      case Some(n) =>
        if n == 0 then Some(Cancel)
        else if 1 <= n <= |users| then Some(users[n - 1])
        else None
      case None =>
        if input in users then Some(input)
        else
          var found := MatchingUsers(users, input);
          if |found| == 1 then
            assert found[0] in found;
            Some(found[0])
          else None
  }

  /** A blank input selects nothing. */
  lemma BlankSelectsNothing(users: seq<string>, input: string)
    requires AllSpace(input)
    ensures SelectUser(users, input) == None
  {
    StripEmptyIff(input);
  }

  /**
   * Typing a number (anything `int()` reads as `n`, such as a run of digits): `0`
   * cancels, `1` to the length of the list pick that user, any other number selects nobody.
   */
  lemma SelectByParsedNumber(users: seq<string>, input: string, n: int)
    requires users != [] && Strip(input) != [] && ParseInt(input) == Some(n)
    ensures SelectUser(users, input) ==
      if n == 0 then Some(Cancel) else if 1 <= n <= |users| then Some(users[n - 1]) else None
  {
  }

  /** A minus sign before a non-zero number selects nobody; `-0` cancels like `0`. */
  lemma SelectByNegativeNumber(users: seq<string>, d: string)
    requires users != [] && IsDigits(d)
    ensures SelectUser(users, "-" + d) == if DecimalValue(d) == 0 then Some(Cancel) else None
  {
    var m := "-" + d;
    ParseIntNegativeDigits(d);
    SelectByParsedNumber(users, m, -(DecimalValue(d) as int));
  }

  /** A name of the list that `int()` rejects selects itself, even when it is part of other names. */
  lemma ExactNameWins(users: seq<string>, input: string)
    requires input in users && !AllSpace(input) && ParseInt(input).None?
    ensures SelectUser(users, input) == Some(input)
  {
    StripEmptyIff(input);
  }

  /**
   * Any other text selects a user exactly when one user's name contains it ignoring case,
   * and then it selects that user.
   */
  lemma UniqueMatchSelects(users: seq<string>, input: string)
    requires users != [] && !AllSpace(input) && ParseInt(input).None? && input !in users
    ensures SelectUser(users, input).Some? <==> |MatchingUsers(users, input)| == 1
    ensures SelectUser(users, input).Some? ==>
      SelectUser(users, input) == Some(MatchingUsers(users, input)[0])
      && Matches(SelectUser(users, input).value, input)
  {
    StripEmptyIff(input);
    var found := MatchingUsers(users, input);
    if |found| == 1 {
      assert found[0] in found;
    }
  }

  /** When two users' names both contain the input, it selects nobody. */
  lemma AmbiguousInputSelectsNobody(users: seq<string>, input: string, u: string, v: string)
    requires !AllSpace(input) && ParseInt(input).None? && input !in users
    requires u in users && v in users && u != v && Matches(u, input) && Matches(v, input)
    ensures SelectUser(users, input) == None
  {
    var found := MatchingUsers(users, input);
    assert Strip(input) != [] by {
      StripEmptyIff(input);
    }
    TwoMembers(found, u, v);
  }

  /**
   * Two entries of the list that both match select nobody, even when they are the same
   * name twice (two sessions of one user).
   */
  lemma RepeatedMatchSelectsNobody(users: seq<string>, input: string, i: nat, j: nat)
    requires !AllSpace(input) && ParseInt(input).None? && input !in users
    requires i < j < |users| && Matches(users[i], input) && Matches(users[j], input)
    ensures SelectUser(users, input) == None
  {
    var found := MatchingUsers(users, input);
    assert Strip(input) != [] by {
      StripEmptyIff(input);
    }
    if users[i] == users[j] {
      OccursTwice(users, i, j);
      CountBound(found, users[i]);
    } else {
      assert users[i] in users && users[j] in users;
      TwoMembers(found, users[i], users[j]);
    }
  }

  /** An element at two positions occurs at least twice. */
  lemma OccursTwice(s: seq<string>, i: nat, j: nat)
    requires i < j < |s| && s[i] == s[j]
    ensures multiset(s)[s[i]] >= 2
  {
    assert s == s[..i] + [s[i]] + s[i + 1..j] + [s[j]] + s[j + 1..];
  }

  /** No element occurs more often than the length of the sequence. */
  lemma CountBound(s: seq<string>, u: string)
    ensures multiset(s)[u] <= |s|
  {
    assert |multiset(s)| == |s|;
    if multiset(s)[u] > 0 {
      assert multiset(s) == multiset(s) - multiset{u} + multiset{u};
    }
  }

  lemma TwoMembers(s: seq<string>, u: string, v: string)
    requires u in s && v in s && u != v
    ensures |s| >= 2
  {
  }

  /**
   * The caller cannot tell a user named `CANCEL` from cancelling: typing its name yields
   * the very value that `0` yields.
   */
  lemma CancelNamedUserLooksLikeCancel(users: seq<string>)
    requires Cancel in users
    ensures SelectUser(users, Cancel) == SelectUser(users, "0")
  {
    assert Strip(Cancel) == Cancel by {
      StripFixed(Cancel);
    }
    assert ParseLiteral(Cancel).None? by {
      assert !IsDigitGroups(Cancel);
    }
    ParseIntDigits("0");
    StripFixed("0");
  }
}
