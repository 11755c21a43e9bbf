/** `UserController.getUserInfo`: the optional `attributes` query string is
    split on commas and filtered against a fixed whitelist of user columns;
    a non-empty string that leaves nothing is a bad request. Tokens are not
    trimmed, so `" id"` is not `"id"`. */
module UserAttributes {
  import opened Wrappers
  import opened Strings

  const ValidAttributes: seq<string> := [
    "id", "firstName", "lastName", "username", "gender", "clerkId",
    "profileImageUrl", "avatarConfig", "birthday", "primaryEmailAddressId",
    "createdAt", "updatedAt"]

  const NoValidAttributes: string := "No valid attributes specified."

  /** `tokens.filter(attr => validAttributes.includes(attr))`. */
  function KeepValid(tokens: seq<string>): (r: seq<string>)
    ensures |r| <= |tokens|
    ensures forall i :: 0 <= i < |r| ==> r[i] in ValidAttributes
    ensures forall x :: x in r <==> x in tokens && x in ValidAttributes
    ensures forall x :: x in ValidAttributes ==> multiset(r)[x] == multiset(tokens)[x]
  {
    if |tokens| == 0 then []
    else
      assert tokens == [tokens[0]] + tokens[1..];
      (if tokens[0] in ValidAttributes then [tokens[0]] else []) + KeepValid(tokens[1..])
  }

  /** Filtering distributes over concatenation: the kept tokens stay in
      their input order. */
  lemma {:induction false} KeepValidAppend(a: seq<string>, b: seq<string>)
    ensures KeepValid(a + b) == KeepValid(a) + KeepValid(b)
  {
    if |a| == 0 {
      assert a + b == b;
    } else {
      assert (a + b)[0] == a[0];
      assert (a + b)[1..] == a[1..] + b;
      KeepValidAppend(a[1..], b);
    }
  }

  /** The attribute list handed to the user service, or the bad-request error. */
  function ParseAttributes(attributes: Option<string>): (r: Result<seq<string>, string>)
    ensures (attributes.None? || attributes.value == "") ==> r == Success([])
    ensures r.Success? ==> forall i :: 0 <= i < |r.value| ==> r.value[i] in ValidAttributes
    ensures r.Failure? <==> attributes.Some? && attributes.value != ""
                            && forall t :: t in Split(attributes.value, ',') ==> t !in ValidAttributes
    ensures r.Failure? ==> r.error == NoValidAttributes
    ensures attributes.Some? && attributes.value != "" && r.Success? ==> r.value == KeepValid(Split(attributes.value, ','))
  {
    if attributes.None? || attributes.value == "" then Success([])
    else
      var kept := KeepValid(Split(attributes.value, ','));
      KeepValidEmpty(Split(attributes.value, ','));
      if |kept| == 0 then Failure(NoValidAttributes) else Success(kept)
  }

  /** The filter leaves nothing exactly when no token is whitelisted. */
  lemma KeepValidEmpty(tokens: seq<string>)
    ensures |KeepValid(tokens)| == 0 <==> forall t :: t in tokens ==> t !in ValidAttributes
  {
    if |KeepValid(tokens)| != 0 {
      assert KeepValid(tokens)[0] in KeepValid(tokens);
    }
  }

  /** Every whitelisted name is non-empty, starts with a letter and has no comma. */
  lemma AttributeShape(x: string)
    requires x in ValidAttributes
    ensures |x| > 0 && x[0] != ' ' && ',' !in x
  {
  }

  lemma NotValidWithLeadingSpace(s: string)
    requires |s| > 0 && s[0] == ' '
    ensures s !in ValidAttributes
  {
    if s in ValidAttributes {
      AttributeShape(s);
    }
  }

  lemma {:induction false} KeepValidAll(names: seq<string>)
    requires forall i :: 0 <= i < |names| ==> names[i] in ValidAttributes
    ensures KeepValid(names) == names
  {
    if |names| > 0 {
      var head := names[0];
      assert head in ValidAttributes;
      KeepValidAll(names[1..]);
      assert KeepValid(names) == [head] + KeepValid(names[1..]);
      assert [head] + names[1..] == names;
    }
  }

  lemma JoinOfValidIsNotEmpty(names: seq<string>)
    requires |names| >= 1
    requires forall i :: 0 <= i < |names| ==> names[i] in ValidAttributes
    ensures Join(names, ',') != ""
  {
    AttributeShape(names[0]);
    JoinCoversFirst(names, ',');
  }

  lemma NamesHaveNoComma(names: seq<string>)
    requires forall i :: 0 <= i < |names| ==> names[i] in ValidAttributes
    ensures forall i :: 0 <= i < |names| ==> ',' !in names[i]
  {
    forall i | 0 <= i < |names|
      ensures ',' !in names[i]
    {
      AttributeShape(names[i]);
    }
  }

  /** Round trip: a comma-joined list of whitelisted names comes back
      unchanged, duplicates and order included. */
  lemma ParseJoinedAttributes(names: seq<string>)
    requires |names| >= 1
    requires forall i :: 0 <= i < |names| ==> names[i] in ValidAttributes
    ensures ParseAttributes(Some(Join(names, ','))) == Success(names)
  {
    NamesHaveNoComma(names);
    SplitJoin(names, ',');
    KeepValidAll(names);
    JoinOfValidIsNotEmpty(names);
    ParseKept(Join(names, ','), names);
  }

  /** A non-empty text whose kept tokens are `names`, at least one of them,
      parses to `names`; kept apart from the facts it combines so that each
      proof stays small. */
  lemma ParseKept(text: string, names: seq<string>)
    requires text != ""
    requires KeepValid(Split(text, ',')) == names
    requires |names| >= 1
    ensures ParseAttributes(Some(text)) == Success(names)
  {
  }

  lemma LeadingSpaceAlone()
    ensures ParseAttributes(Some(" id")) == Failure(NoValidAttributes)
  {
    SplitFree(" id", ',');
    NotValidWithLeadingSpace(" id");
    assert KeepValid([" id"]) == [];
  }

  lemma ExampleText()
    ensures "id, firstName" == "id" + [','] + " firstName"
  {
  }

  lemma ExampleTail()
    ensures Split(" firstName", ',') == [" firstName"]
  {
    SplitFree(" firstName", ',');
  }

  lemma ExampleHead()
    ensures Split("id" + [','] + " firstName", ',') == ["id"] + Split(" firstName", ',')
  {
    SplitPrefix("id", " firstName", ',');
  }

  /** The example's split, from the three facts above. */
  lemma SplitExample()
    ensures Split("id, firstName", ',') == ["id", " firstName"]
  {
    ExampleText();
    ExampleTail();
    ExampleHead();
  }

  lemma KeepExample()
    ensures KeepValid(["id", " firstName"]) == ["id"]
  {
    NotValidWithLeadingSpace(" firstName");
    assert KeepValid([" firstName"]) == [];
    assert "id" in ValidAttributes;
    assert KeepValid(["id"]) == ["id"];
    assert ["id"] + [" firstName"] == ["id", " firstName"];
    KeepValidAppend(["id"], [" firstName"]);
  }

  lemma LeadingSpaceAfterComma()
    ensures ParseAttributes(Some("id, firstName")) == Success(["id"])
  {
    SplitExample();
    KeepExample();
  }

  /** No trimming: a whitelisted name with a leading space is dropped, and
      alone it is a bad request; one good token keeps the request valid. */
  lemma SpacesAreNotTrimmed()
    ensures ParseAttributes(Some(" id")) == Failure(NoValidAttributes)
    ensures ParseAttributes(Some("id, firstName")) == Success(["id"])
  {
    LeadingSpaceAlone();
    LeadingSpaceAfterComma();
  }
}
