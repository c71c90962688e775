/**
 * What a `System.ComponentModel.DataAnnotations` attribute sees and answers: the
 * property value as a tagged union (C# hands the attribute an `object?`), and
 * `ValidationResult.Success` or a failure carrying a message.
 */
module DataAnnotations {
  import opened OrderCategories

  datatype AttributeValue =
    | Null
    | Str(s: string)
    | Dec(d: real)
    | Category(c: OrderCategory)
    | OtherValue

  datatype ValidationResult = Success | Failure(message: string)

  /** One entry of `Validator.TryValidateObject`'s result list. */
  datatype MemberError = MemberError(memberName: string, message: string)
}

/**
 * `ValidISBNAttribute` (OrderManagementAPI/ValidationAttributes/ValidISBNAttribute.cs):
 * after removing hyphens and spaces, a non-empty ISBN must have the shape of the
 * pattern `^(?:\d{9}[\dX]|\d{13})$`. No check digit is computed. The client-side part
 * merges three `data-val` entries into the context's attribute dictionary.
 */
module OrderApiIsbnAttribute {
  import opened Text
  import opened DataAnnotations

  /** The pattern text, as sent to the client in `data-val-isbn-pattern`. */
  const IsbnPattern: string := "^(?:\\d{9}[\\dX]|\\d{13})$"

  const IsbnErrorMessage: string :=
    "The ISBN must be a valid 10 or 13 digit format (may contain hyphens or spaces)."

  /** The body of the pattern: nine digits then a digit or 'X', or thirteen digits. */
  predicate IsbnShape(s: string) {
    || (|s| == 10 && AllDigits(s[..9]) && (IsAsciiDigit(s[9]) || s[9] == 'X'))
    || (|s| == 13 && AllDigits(s))
  }

  /**
   * `Regex.IsMatch(s, IsbnPattern)`. In .NET, `$` without the Multiline option also
   * matches just before a final '\n', so the shape may be followed by one newline.
   */
  predicate MatchesIsbnPattern(s: string) {
    IsbnShape(s) || (|s| > 0 && s[|s| - 1] == '\n' && IsbnShape(s[..|s| - 1]))
  }

  /** `isbn.Replace("-", "").Replace(" ", "")`. */
  function CleanIsbn(isbn: string): (c: string)
    ensures '-' !in c && ' ' !in c
  {
    Remove(Remove(isbn, '-'), ' ')
  }

  /** `ValidISBNAttribute.IsValid`. */
  function IsValid(value: AttributeValue): ValidationResult {
    match value
    case Str(isbn) =>
      var clean := CleanIsbn(isbn);
      if clean == [] then Success
      else if !MatchesIsbnPattern(clean) then Failure(IsbnErrorMessage)
      else Success
    case _ => Success
  }

  // ---------------------------------------------------------------------------
  // Properties of IsValid
  // ---------------------------------------------------------------------------

  lemma CleanIsbnConcat(a: string, b: string)
    ensures CleanIsbn(a + b) == CleanIsbn(a) + CleanIsbn(b)
  {
    RemoveConcat(a, b, '-');
    RemoveConcat(Remove(a, '-'), Remove(b, '-'), ' ');
  }

  /** A value that is not a string (null included) is always accepted. */
  lemma NonStringPasses(value: AttributeValue)
    requires !value.Str?
    ensures IsValid(value) == Success
  {
  }

  /**
   * The verdict on a string: accepted exactly when nothing is left after removing
   * hyphens and spaces (emptiness is left to `[Required]`), or what is left has the
   * ISBN-10 or ISBN-13 shape; otherwise the fixed constructor message.
   */
  lemma StringVerdict(isbn: string)
    ensures IsValid(Str(isbn)) == Success <==>
      CleanIsbn(isbn) == [] || MatchesIsbnPattern(CleanIsbn(isbn))
    ensures IsValid(Str(isbn)) != Success ==> IsValid(Str(isbn)) == Failure(IsbnErrorMessage)
  {
  }

  /** Inserting a hyphen or a space anywhere never changes the verdict. */
  lemma {:induction false} SeparatorInvariance(a: string, b: string, sep: char)
    requires sep == '-' || sep == ' '
    ensures IsValid(Str(a + [sep] + b)) == IsValid(Str(a + b))
  {
    CleanIsbnDropsSeparator(a, b, sep);
  }

  lemma CleanIsbnDropsSeparator(a: string, b: string, sep: char)
    requires sep == '-' || sep == ' '
    ensures CleanIsbn(a + [sep] + b) == CleanIsbn(a + b)
  {
    calc {
      CleanIsbn(a + [sep] + b);
      == { CleanIsbnAround(a, sep, b); }
      CleanIsbn(a) + CleanIsbn([sep]) + CleanIsbn(b);
      == { CleanIsbnOfSeparator(sep); assert CleanIsbn(a) + [] == CleanIsbn(a); }
      CleanIsbn(a) + CleanIsbn(b);
      == { CleanIsbnConcat(a, b); }
      CleanIsbn(a + b);
    }
  }

  /** Cleaning works on either side of one character separately. */
  lemma CleanIsbnAround(a: string, c: char, b: string)
    ensures CleanIsbn(a + [c] + b) == CleanIsbn(a) + CleanIsbn([c]) + CleanIsbn(b)
  {
    CleanIsbnConcat(a + [c], b);
    CleanIsbnConcat(a, [c]);
  }

  lemma CleanIsbnOfSeparator(sep: char)
    requires sep == '-' || sep == ' '
    ensures CleanIsbn([sep]) == []
  {
    var once := Remove([sep], '-');
    assert [sep][1..] == [];
    assert once == if sep == '-' then [] else [sep];
    if sep == ' ' {
      assert once[1..] == [];
    }
  }

  /** A shape check only: every string of thirteen digits passes, whatever its last digit. */
  lemma {:induction false} AnyThirteenDigitsPass(isbn: string)
    requires |isbn| == 13 && AllDigits(isbn)
    ensures IsValid(Str(isbn)) == Success
  {
    assert forall i :: 0 <= i < |isbn| ==> isbn[i] != '-' && isbn[i] != ' ' by {
      forall i | 0 <= i < |isbn| ensures isbn[i] != '-' && isbn[i] != ' ' {
        assert IsAsciiDigit(isbn[i]);
      }
    }
    RemoveAbsent(isbn, '-');
    RemoveAbsent(isbn, ' ');
  }

  /** A lowercase check character is refused: only an uppercase 'X' is accepted. */
  lemma {:induction false} LowercaseXFails(body: string)
    requires |body| == 9 && AllDigits(body)
    ensures IsValid(Str(body + ['x'])) == Failure(IsbnErrorMessage)
  {
    var s := body + ['x'];
    assert forall i :: 0 <= i < |s| ==> s[i] != '-' && s[i] != ' ' by {
      forall i | 0 <= i < |s| ensures s[i] != '-' && s[i] != ' ' {
        if i < 9 { assert IsAsciiDigit(body[i]); }
      }
    }
    RemoveAbsent(s, '-');
    RemoveAbsent(s, ' ');
    assert CleanIsbn(s) == s;
    assert s[|s| - 1] == 'x';
  }

  // ---------------------------------------------------------------------------
  // Client-side validation: MergeAttribute and AddValidation
  // ---------------------------------------------------------------------------

  /** `ClientModelValidationContext`: the HTML attribute dictionary it carries. */
  class ClientModelValidationContext {
    var attributes: map<string, string>

    constructor (attributes: map<string, string>)
      ensures this.attributes == attributes
    {
      this.attributes := attributes;
    }
  }

  /** The dictionary after an insert-if-absent of `key`. */
  function MergedWith(attributes: map<string, string>, key: string, value: string): map<string, string> {
    if key in attributes then attributes else attributes[key := value]
  }

  /** `MergeAttribute`: adds `key` only when it is absent and reports whether it did. */
  method MergeAttribute(context: ClientModelValidationContext, key: string, value: string)
    returns (added: bool)
    modifies context
    ensures added <==> key !in old(context.attributes)
    ensures context.attributes == MergedWith(old(context.attributes), key, value)
  {
    if key in context.attributes {
      return false;
    }
    context.attributes := context.attributes[key := value];
    return true;
  }

  /** Merging never overwrites: every old entry keeps its value, and `key` is present afterwards. */
  lemma MergeNeverOverwrites(attributes: map<string, string>, key: string, value: string)
    ensures var m := MergedWith(attributes, key, value);
      && m.Keys == attributes.Keys + {key}
      && (forall k :: k in attributes ==> m[k] == attributes[k])
      && (key !in attributes ==> m[key] == value)
  {
  }

  /**
   * `AddValidation`: a null context throws `ArgumentNullException` (reported as
   * `thrown`); otherwise the three `data-val` keys are merged in, in order.
   */
  method AddValidation(context: ClientModelValidationContext?) returns (thrown: bool)
    modifies context
    ensures thrown <==> context == null
    ensures context != null ==>
      && context.attributes.Keys == old(context.attributes).Keys + {"data-val", "data-val-isbn", "data-val-isbn-pattern"}
      && (forall k :: k in old(context.attributes) ==> context.attributes[k] == old(context.attributes)[k])
      && ("data-val" !in old(context.attributes) ==> context.attributes["data-val"] == "true")
      && ("data-val-isbn" !in old(context.attributes) ==> context.attributes["data-val-isbn"] == IsbnErrorMessage)
      && ("data-val-isbn-pattern" !in old(context.attributes) ==>
            context.attributes["data-val-isbn-pattern"] == IsbnPattern)
  {
    if context == null {
      return true;
    }
    var _ := MergeAttribute(context, "data-val", "true");
    var _ := MergeAttribute(context, "data-val-isbn", IsbnErrorMessage);
    var _ := MergeAttribute(context, "data-val-isbn-pattern", IsbnPattern);
    return false;
  }
}
