/**
 * The article editor of `src/components/admin/NewsForm.tsx`: the gallery
 * list edits, the mapping of a server error map onto form-field errors, the
 * slug generation guards and what a submit does with the server's answer.
 */
module NewsForm {
  import opened Wrappers
  import opened HttpErrors
  import opened Validation
  import opened Utils
  import opened NewsActions
  import opened Schema

  /** The editor's props: the article being edited, with its id when it has one. */
  datatype InitialData = InitialData(values: NewsInput, id: Option<int>)

  /** The values `form.reset` restores after a create. */
  const EmptyValues: NewsInput := NewsInput("", "", "", "", [])

  /** `initialData?.id ? updateNews(id, ..) : createNews(..)`: an id of 0 is falsy. */
  function UpdateTarget(initialData: Option<InitialData>): (target: Option<int>)
    ensures target.Some? <==> initialData.Some? && initialData.value.id.Some? && initialData.value.id.value != 0
    ensures target.Some? ==> target.value == initialData.value.id.value
  {
    match initialData
    case Some(InitialData(_, Some(id))) => if id != 0 then Some(id) else None
    case _ => None
  }

  /** `prev.map((_, i) => i === index ? value : _)`. */
  function ReplaceAt(images: seq<string>, index: int, value: string): (edited: seq<string>)
    ensures |edited| == |images|
    ensures forall k :: 0 <= k < |images| ==> edited[k] == if k == index then value else images[k]
  {
    seq(|images|, k requires 0 <= k < |images| => if k == index then value else images[k])
  }

  /** `images.filter((_, i) => i !== index)`. */
  function RemoveAt(images: seq<string>, index: nat): (kept: seq<string>)
    requires index < |images|
    ensures |kept| == |images| - 1
    ensures forall k :: 0 <= k < index ==> kept[k] == images[k]
    ensures forall k :: index <= k < |kept| ==> kept[k] == images[k + 1]
    ensures multiset(kept) + multiset{images[index]} == multiset(images)
  {
    assert images == images[..index] + [images[index]] + images[index + 1..];
    images[..index] + images[index + 1..]
  }

  /**
   * The field errors the `forEach` over `Object.entries(errors)` sets: each
   * key other than `_form` with a message gets its first message; a later
   * entry for the same key overrides an earlier one.
   */
  function FieldMessages(errors: FieldErrors): (messages: map<string, string>)
    ensures FormKey !in messages
  {
    if errors == [] then map[]
    else
      var before := FieldMessages(errors[..|errors| - 1]);
      var (key, messages) := errors[|errors| - 1];
      if key != FormKey && |messages| > 0 then before[key := messages[0]] else before
  }

  /** Keys of an error map are distinct (as those of a `Record` are). */
  predicate DistinctKeys(errors: FieldErrors)
  {
    forall i, j :: 0 <= i < j < |errors| ==> errors[i].0 != errors[j].0
  }

  /** A key gets a field error exactly when it is not `_form` and some entry for it has a message. */
  lemma {:induction false} FieldMessagesKeys(errors: FieldErrors, key: string)
    ensures key in FieldMessages(errors) <==>
              exists i :: 0 <= i < |errors| && errors[i].0 == key && key != FormKey && |errors[i].1| > 0
  {
    if errors != [] {
      var init := errors[..|errors| - 1];
      FieldMessagesKeys(init, key);
      if exists i :: 0 <= i < |errors| && errors[i].0 == key && key != FormKey && |errors[i].1| > 0 {
        var i :| 0 <= i < |errors| && errors[i].0 == key && key != FormKey && |errors[i].1| > 0;
        if i < |errors| - 1 {
          assert init[i] == errors[i];
        }
      }
      if key in FieldMessages(init) {
        var i :| 0 <= i < |init| && init[i].0 == key && key != FormKey && |init[i].1| > 0;
        assert errors[i] == init[i];
      }
    }
  }

  /** With distinct keys, every key other than `_form` with a message carries the first of its messages. */
  lemma {:induction false} FieldMessagesFirst(errors: FieldErrors, i: nat)
    requires DistinctKeys(errors)
    requires i < |errors| && errors[i].0 != FormKey && |errors[i].1| > 0
    ensures errors[i].0 in FieldMessages(errors)
    ensures FieldMessages(errors)[errors[i].0] == errors[i].1[0]
  {
    var init := errors[..|errors| - 1];
    if i < |errors| - 1 {
      assert init[i] == errors[i];
      assert DistinctKeys(init) by {
        forall a, b | 0 <= a < b < |init| ensures init[a].0 != init[b].0 {
          assert init[a] == errors[a] && init[b] == errors[b];
        }
      }
      FieldMessagesFirst(init, i);
      assert errors[|errors| - 1].0 != errors[i].0;
    }
  }

  /**
   * How a submit ends: the resolver blocks it with the schema's errors, the
   * server call rejects, or the server answers.
   */
  datatype SubmitOutcome = Blocked(errors: FieldErrors) | Rejected | Answered(result: ActionResult)

  /** The editor's state: the gallery list, the form's values and the errors set on its fields. */
  class NewsFormState {
    const initialData: Option<InitialData>
    /** The `images` state the gallery renders. */
    var images: seq<string>
    /** The values held by the form (`form.getValues()`), submitted as they are. */
    var values: NewsInput
    /** The errors `form.setError` has set, by field name. */
    var fieldErrors: map<string, string>

    /** Mounting: default values from the article, and its gallery copied into both lists. */
    constructor (initialData: Option<InitialData>)
      ensures this.initialData == initialData && fieldErrors == map[]
      ensures initialData.None? ==> values == EmptyValues && images == []
      ensures initialData.Some? ==> values == initialData.value.values && images == initialData.value.values.images
    {
      this.initialData := initialData;
      fieldErrors := map[];
      if initialData.Some? {
        values := initialData.value.values;
        images := initialData.value.values.images;
      } else {
        values := EmptyValues;
        images := [];
      }
    }

    /** Typing in the URL box of gallery image `index`: only the gallery state changes. */
    method EditImage(index: int, value: string)
      modifies this`images
      ensures images == ReplaceAt(old(images), index, value)
    {
      images := ReplaceAt(images, index, value);
    }

    /**
     * The delete button of gallery image `index`: the storage key to delete
     * remotely (only when one can be extracted), then the image leaves both
     * lists. When that remote deletion rejects (`deleteRejected`) the
     * transition stops before the lists are touched.
     */
    method DeleteImage(index: nat, deleteRejected: bool) returns (fileKey: Option<string>)
      requires index < |images|
      modifies this`images, this`values
      ensures var key := ExtractIdentifierFromUrl(old(images)[index]);
              fileKey == if key != "" then Some(key) else None
      ensures fileKey.Some? && deleteRejected ==> images == old(images) && values == old(values)
      ensures !(fileKey.Some? && deleteRejected) ==>
                images == RemoveAt(old(images), index) && values == old(values).(images := images)
    {
      var key := ExtractIdentifierFromUrl(images[index]);
      fileKey := if key != "" then Some(key) else None;
      if fileKey.Some? && deleteRejected {
        return;
      }
      var updated := RemoveAt(images, index);
      images := updated;
      values := values.(images := updated);
    }

    /** An upload finished: its URL goes to the end of both lists. */
    method UploadComplete(url: string)
      modifies this`images, this`values
      ensures images == old(images) + [url]
      ensures values == old(values).(images := images)
    {
      var updated := images + [url];
      images := updated;
      values := values.(images := updated);
    }

    /** The upload button beside the main image: its URL becomes the main image. */
    method MainImageUploaded(url: string)
      modifies this`values
      ensures values == old(values).(mainImage := url)
    {
      values := values.(mainImage := url);
    }

    /** The cancel button, `form.reset()`: the default values return, the gallery state stays. */
    method Cancel()
      modifies this`values, this`fieldErrors
      ensures values == (if initialData.Some? then initialData.value.values else EmptyValues)
      ensures fieldErrors == map[]
    {
      values := if initialData.Some? then initialData.value.values else EmptyValues;
      fieldErrors := map[];
    }

    /** `generateSlug`: nothing on an empty title, otherwise the slug becomes `slugify(title)`. */
    method GenerateSlug(slugify: string -> string)
      modifies this`values
      ensures old(values).title == "" ==> values == old(values)
      ensures old(values).title != "" ==> values == old(values).(slug := slugify(old(values).title))
    {
      var title := values.title;
      if title != "" {
        values := values.(slug := slugify(title));
      }
    }

    /** Leaving the title box generates a slug only while the slug is still empty. */
    method TitleBlur(slugify: string -> string)
      modifies this`values
      ensures old(values).slug != "" || old(values).title == "" ==> values == old(values)
      ensures old(values).slug == "" && old(values).title != "" ==>
                values == old(values).(slug := slugify(old(values).title))
    {
      if values.slug == "" {
        GenerateSlug(slugify);
      }
    }

    /** The `forEach` that copies a server error map onto the form's fields. */
    method ApplyErrors(errors: FieldErrors)
      modifies this`fieldErrors
      ensures fieldErrors == old(fieldErrors) + FieldMessages(errors)
    {
      var i := 0;
      while i < |errors|
        invariant 0 <= i <= |errors|
        invariant fieldErrors == old(fieldErrors) + FieldMessages(errors[..i])
      {
        var (key, messages) := errors[i];
        assert errors[..i + 1][..i] == errors[..i];
        if key != FormKey && |messages| > 0 {
          fieldErrors := fieldErrors[key := messages[0]];
        }
        i := i + 1;
      }
      assert errors[..|errors|] == errors;
    }

    /**
     * `form.handleSubmit(onSubmit)`: the zod resolver's errors replace the
     * form's errors, and only values that pass reach `onSubmit`, which creates
     * or updates. An error map from the server becomes field errors; after a
     * successful create the editor is cleared. `rejected` is a server call
     * that throws: the catch only shows a toast.
     */
    method Submit(table: NewsTable, rejected: bool) returns (outcome: SubmitOutcome)
      requires table.Valid()
      modifies this`images, this`values, this`fieldErrors, table
      ensures table.Valid()
      ensures outcome.Blocked? <==> !IsValid(old(values))
      ensures outcome.Rejected? <==> IsValid(old(values)) && rejected
      ensures outcome.Blocked? ==>
                outcome.errors == Validate(old(values)) && fieldErrors == FieldMessages(outcome.errors)
      ensures outcome.Rejected? ==> fieldErrors == map[]
      ensures outcome.Answered? && outcome.result.Failure? ==>
                fieldErrors == FieldMessages(outcome.result.error)
      ensures outcome != Answered(Success) ==>
                unchanged(table) && images == old(images) && values == old(values)
      ensures outcome == Answered(Success) && UpdateTarget(initialData).None? ==>
                var v := old(values);
                table.rows == old(table.rows) + [NewsRow(old(table.nextId), v.slug, v.title, v.mainImage,
                                                         v.content, v.images, old(table.clock))] &&
                table.nextId == old(table.nextId) + 1 && table.clock == old(table.clock) + 1 &&
                GetNewsBySlug(table.rows, v.slug).Some?
      ensures outcome == Answered(Success) && UpdateTarget(initialData).Some? ==>
                var i := FindById(old(table.rows), UpdateTarget(initialData).value);
                0 <= i < |old(table.rows)| &&
                table.rows == old(table.rows)[i := Updated(old(table.rows)[i], old(values))] &&
                table.nextId == old(table.nextId) && table.clock == old(table.clock)
      ensures outcome == Answered(Success) ==> fieldErrors == map[]
      ensures outcome == Answered(Success) && initialData.None? ==> images == [] && values == EmptyValues
      ensures outcome == Answered(Success) && initialData.Some? ==> images == old(images) && values == old(values)
    {
      var errors := Validate(values);
      fieldErrors := FieldMessages(errors);
      if errors != [] {
        return Blocked(errors);
      }
      if rejected {
        return Rejected;
      }
      var result := Send(table);
      Settle(result);
      outcome := Answered(result);
    }

    /**
     * What `onSubmit` does with the server's answer once the resolver has
     * cleared the errors: an error map becomes field errors, a create resets the editor.
     */
    method Settle(result: ActionResult)
      requires fieldErrors == map[]
      modifies this`images, this`values, this`fieldErrors
      ensures result.Failure? ==> fieldErrors == FieldMessages(result.error)
      ensures result.Success? ==> fieldErrors == map[]
      ensures result.Success? && initialData.None? ==> images == [] && values == EmptyValues
      ensures result.Failure? || initialData.Some? ==> images == old(images) && values == old(values)
    {
      if result.Failure? {
        ApplyErrors(result.error);
        assert map[] + FieldMessages(result.error) == FieldMessages(result.error);
      } else if initialData.None? {
        ClearAfterCreate();
      }
    }

    /** `initialData?.id ? updateNews(id, values) : createNews(values)`, for values the schema accepts. */
    method Send(table: NewsTable) returns (result: ActionResult)
      requires table.Valid() && IsValid(values)
      modifies table
      ensures table.Valid()
      ensures result.Failure? ==> unchanged(table)
      ensures result.Success? && UpdateTarget(initialData).None? ==>
                table.rows == old(table.rows) + [NewsRow(old(table.nextId), values.slug, values.title, values.mainImage,
                                                         values.content, values.images, old(table.clock))] &&
                table.nextId == old(table.nextId) + 1 && table.clock == old(table.clock) + 1 &&
                GetNewsBySlug(table.rows, values.slug).Some?
      ensures result.Success? && UpdateTarget(initialData).Some? ==>
                var i := FindById(old(table.rows), UpdateTarget(initialData).value);
                0 <= i < |old(table.rows)| &&
                table.rows == old(table.rows)[i := Updated(old(table.rows)[i], values)] &&
                table.nextId == old(table.nextId) && table.clock == old(table.clock)
    {
      var target := UpdateTarget(initialData);
      if target.Some? {
        result := table.UpdateNews(target.value, values);
      } else {
        result := table.CreateNews(values);
      }
    }

    /** After a successful create: `setImages([])` and `form.reset` to empty values. */
    method ClearAfterCreate()
      modifies this`images, this`values, this`fieldErrors
      ensures images == [] && values == EmptyValues && fieldErrors == map[]
    {
      images := [];
      values := EmptyValues;
      fieldErrors := map[];
    }
  }
}
