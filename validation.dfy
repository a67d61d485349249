/** `NewsSchema` of `src/lib/validation.ts` as a validator returning its field errors. */
module Validation {
  import opened Wrappers
  import opened HttpErrors
  import opened Text

  /** The values a news form submits; `images` has no rule in the schema. */
  datatype NewsInput = NewsInput(
    title: string,
    slug: string,
    mainImage: string,
    content: string,
    images: seq<string>)

  const TitleTooShort: string := "Title must be at least 3 characters"
  const SlugTooShort: string := "Slug must be at least 3 characters"
  const MainImageMissing: string := "Main image is required"
  const ContentTooShort: string := "Content must be at least 10 characters"

  /**
   * All four minimum-length rules hold; zod's `min` compares JavaScript's
   * `length`, which counts UTF-16 code units.
   */
  predicate IsValid(input: NewsInput)
  {
    Utf16Length(input.title) >= 3 && Utf16Length(input.slug) >= 3 && Utf16Length(input.mainImage) >= 1 && Utf16Length(input.content) >= 10
  }

  /** One entry for a failing rule, none for a passing one. */
  function Rule(fails: bool, field: string, message: string): FieldErrors
  {
    if fails then [(field, [message])] else []
  }

  lemma LookupAppend(a: FieldErrors, b: FieldErrors, field: string)
    ensures Lookup(a + b, field) == if Lookup(a, field).Some? then Lookup(a, field) else Lookup(b, field)
  {
    if a != [] {
      assert a + b != [] && (a + b)[0] == a[0];
      if a[0].0 != field {
        assert (a + b)[1..] == a[1..] + b;
        LookupAppend(a[1..], b, field);
      }
    } else {
      assert a + b == b;
    }
  }

  lemma {:induction false} LookupFour(t: FieldErrors, s: FieldErrors, m: FieldErrors, c: FieldErrors, field: string)
    ensures Lookup(t + (s + (m + c)), field)
            == if Lookup(t, field).Some? then Lookup(t, field)
               else if Lookup(s, field).Some? then Lookup(s, field)
               else if Lookup(m, field).Some? then Lookup(m, field)
               else Lookup(c, field)
  {
    LookupAppend(t, s + (m + c), field);
    LookupAppend(s, m + c, field);
    LookupAppend(m, c, field);
  }

  /**
   * `NewsSchema.safeParse(values).error.flatten().fieldErrors`: one entry per
   * failing rule, in the schema's field order, each with its one fixed message.
   */
  function Validate(input: NewsInput): (errors: FieldErrors)
    ensures errors == [] <==> IsValid(input)
    ensures |errors| <= 4
    ensures forall i :: 0 <= i < |errors| ==> errors[i].0 in {"title", "slug", "mainImage", "content"}
  {
    Rule(Utf16Length(input.title) < 3, "title", TitleTooShort)
      + (Rule(Utf16Length(input.slug) < 3, "slug", SlugTooShort)
      + (Rule(Utf16Length(input.mainImage) < 1, "mainImage", MainImageMissing)
      + Rule(Utf16Length(input.content) < 10, "content", ContentTooShort)))
  }

  /** Each failing field is reported under its own key with exactly its fixed message; a passing one is absent. */
  lemma {:induction false} ValidateReportsEachField(input: NewsInput)
    ensures Lookup(Validate(input), "title") == if Utf16Length(input.title) < 3 then Some([TitleTooShort]) else None
    ensures Lookup(Validate(input), "slug") == if Utf16Length(input.slug) < 3 then Some([SlugTooShort]) else None
    ensures Lookup(Validate(input), "mainImage") == if Utf16Length(input.mainImage) < 1 then Some([MainImageMissing]) else None
    ensures Lookup(Validate(input), "content") == if Utf16Length(input.content) < 10 then Some([ContentTooShort]) else None
  {
    var t := Rule(Utf16Length(input.title) < 3, "title", TitleTooShort);
    var s := Rule(Utf16Length(input.slug) < 3, "slug", SlugTooShort);
    var m := Rule(Utf16Length(input.mainImage) < 1, "mainImage", MainImageMissing);
    var c := Rule(Utf16Length(input.content) < 10, "content", ContentTooShort);
    LookupFour(t, s, m, c, "title");
    LookupFour(t, s, m, c, "slug");
    LookupFour(t, s, m, c, "mainImage");
    LookupFour(t, s, m, c, "content");
  }
}
