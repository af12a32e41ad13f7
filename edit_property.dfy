/**
 * The property edit page: the form's VIP tier read back from the stored
 * listing, the existing images marked for deletion, the budget for new images,
 * the final image list, and the update sent to the properties table.
 */
module EditProperty {
  import opened Common
  import opened ListSet
  import opened PropertyForm

  /** The VipType values of the edit form. */
  const EditVipTypes: seq<string> := ["none", "kimcuong", "vang", "bac"]

  /**
   * The tier a stored vip_type shows as in the form: the three lower-case
   * tiers are kept, every other value (null, "thuong", upper-case names) is "none".
   */
  method VipFromStored(stored: Option<string>) returns (vipType: string)
    ensures vipType in EditVipTypes
    ensures vipType != "none" <==> stored.Some? && stored.value in EditVipTypes[1..]
    ensures vipType != "none" ==> stored == Some(vipType)
  {
    vipType := "none";
    if stored == Some("kimcuong") {
      vipType := "kimcuong";
    } else if stored == Some("vang") {
      vipType := "vang";
    } else if stored == Some("bac") {
      vipType := "bac";
    }
  }

  /** `existing.filter(url => !toDelete.includes(url))`: no marked url is kept. */
  function Kept(existing: seq<string>, toDelete: seq<string>): (r: seq<string>)
    ensures |r| <= |existing|
    ensures forall i :: 0 <= i < |r| ==> r[i] !in toDelete
  {
    if existing == [] then []
    else (if existing[0] in toDelete then [] else [existing[0]]) + Kept(existing[1..], toDelete)
  }

  /**
   * finalImages: the existing images not marked for deletion, in order, then
   * the uploaded ones. The uploaded urls end the list, and no url before them
   * is marked.
   */
  function FinalImages(existing: seq<string>, toDelete: seq<string>, uploaded: seq<string>): (r: seq<string>)
    ensures |uploaded| <= |r| <= |existing| + |uploaded|
    ensures r[|r| - |uploaded|..] == uploaded
    ensures forall i :: 0 <= i < |r| - |uploaded| ==> r[i] !in toDelete
  {
    Kept(existing, toDelete) + uploaded
  }

  /** An image is kept exactly when it exists and is not marked for deletion. */
  lemma {:induction false} KeptMembership(existing: seq<string>, toDelete: seq<string>, url: string)
    ensures url in Kept(existing, toDelete) <==> url in existing && url !in toDelete
  {
    if existing != [] {
      KeptMembership(existing[1..], toDelete, url);
      assert existing == [existing[0]] + existing[1..];
    }
  }

  /** Keeping works image by image, so the kept images stay in their order. */
  lemma {:induction false} KeptDistributes(a: seq<string>, b: seq<string>, toDelete: seq<string>)
    ensures Kept(a + b, toDelete) == Kept(a, toDelete) + Kept(b, toDelete)
  {
    if a != [] {
      assert (a + b)[1..] == a[1..] + b;
      KeptDistributes(a[1..], b, toDelete);
    } else {
      assert a + b == b;
    }
  }

  /**
   * A url is in the final list exactly when it is an existing image not marked
   * for deletion or one of the uploaded ones: a marked image survives only
   * when it was uploaded again. The kept images come first, and with nothing
   * marked the existing list is kept whole.
   */
  lemma FinalImagesSpec(existing: seq<string>, toDelete: seq<string>, uploaded: seq<string>, url: string)
    ensures url in FinalImages(existing, toDelete, uploaded) <==>
      (url in existing && url !in toDelete) || url in uploaded
    ensures url in toDelete && url !in uploaded ==> url !in FinalImages(existing, toDelete, uploaded)
    ensures FinalImages(existing, [], uploaded) == existing + uploaded
  {
    KeptMembership(existing, toDelete, url);
    KeptNothingMarked(existing);
  }

  lemma {:induction false} KeptNothingMarked(existing: seq<string>)
    ensures Kept(existing, []) == existing
  {
    if existing != [] {
      KeptNothingMarked(existing[1..]);
      assert existing == [existing[0]] + existing[1..];
    }
  }

  /** The elements of a sequence, as a set. */
  function Elements(s: seq<string>): set<string> {
    set x | x in s
  }

  /** A sequence without duplicates has as many elements as its set. */
  lemma {:induction false} ElementsCount(s: seq<string>)
    requires NoDuplicates(s)
    ensures |Elements(s)| == |s|
  {
    if s != [] {
      ElementsCount(s[1..]);
      assert s[0] !in s[1..] by {
        forall k | 0 <= k < |s[1..]| ensures s[1..][k] != s[0] { assert s[1..][k] == s[k + 1]; }
      }
      assert Elements(s) == {s[0]} + Elements(s[1..]);
    }
  }

  lemma {:induction false} KeptNoDuplicates(existing: seq<string>, toDelete: seq<string>)
    requires NoDuplicates(existing)
    ensures NoDuplicates(Kept(existing, toDelete))
  {
    if existing != [] {
      KeptNoDuplicates(existing[1..], toDelete);
      KeptMembership(existing[1..], toDelete, existing[0]);
      assert existing[0] !in existing[1..] by {
        forall k | 0 <= k < |existing[1..]| ensures existing[1..][k] != existing[0] {
          assert existing[1..][k] == existing[k + 1];
        }
      }
    }
  }

  /**
   * The page's image count `existing - toDelete + new` is the length of the
   * final list when every new image uploads, provided the marked images are
   * distinct existing images and the existing list has no duplicates.
   */
  lemma TotalCountsFinalImages(existing: seq<string>, toDelete: seq<string>, uploaded: seq<string>)
    requires NoDuplicates(existing) && NoDuplicates(toDelete)
    requires forall u :: u in toDelete ==> u in existing
    ensures |FinalImages(existing, toDelete, uploaded)| == |existing| - |toDelete| + |uploaded|
  {
    var kept := Kept(existing, toDelete);
    KeptNoDuplicates(existing, toDelete);
    ElementsCount(existing);
    ElementsCount(toDelete);
    ElementsCount(kept);
    forall u ensures u in Elements(kept) <==> u in Elements(existing) - Elements(toDelete) {
      KeptMembership(existing, toDelete, u);
    }
    assert Elements(kept) == Elements(existing) - Elements(toDelete);
    assert Elements(existing) == Elements(kept) + Elements(toDelete);
  }

  class EditForm {
    /** existingImages: the urls stored with the listing. */
    var existingImages: seq<string>
    /** imagesToDelete: existing urls marked for deletion. */
    var imagesToDelete: seq<string>
    /** newImages: files picked for upload. */
    var newImages: seq<ImageFile>
    /** newImagePreviews */
    var newImagePreviews: seq<string>

    /** The state after loading a listing: its images, nothing marked, nothing new. */
    constructor (stored: seq<string>)
      ensures existingImages == stored && imagesToDelete == [] && newImages == [] && newImagePreviews == []
    {
      existingImages := stored;
      imagesToDelete := [];
      newImages := [];
      newImagePreviews := [];
    }

    /**
     * totalImages: `existingImages.length - imagesToDelete.length + newImages.length`.
     * Marks only lower the count below the existing and new images together.
     */
    function TotalImages(): (r: int)
      reads this
      ensures r <= |existingImages| + |newImages|
      ensures imagesToDelete == [] ==> r == |existingImages| + |newImages|
    {
      |existingImages| - |imagesToDelete| + |newImages|
    }

    /** The marks are distinct existing images. */
    predicate MarksConsistent()
      reads this
    {
      NoDuplicates(imagesToDelete) && forall u :: u in imagesToDelete ==> u in existingImages
    }

    /**
     * toggleDeleteExistingImage: flips whether url is marked. Marking counts
     * one image less, unmarking one more: nothing caps the count on the way back up.
     */
    method ToggleDeleteExistingImage(url: string)
      modifies this
      ensures imagesToDelete == Toggled(old(imagesToDelete), url)
      ensures existingImages == old(existingImages) && newImages == old(newImages)
      ensures newImagePreviews == old(newImagePreviews)
      ensures url in imagesToDelete <==> url !in old(imagesToDelete)
      ensures forall u :: u != url ==> (u in imagesToDelete <==> u in old(imagesToDelete))
      ensures old(MarksConsistent()) && url in existingImages ==> MarksConsistent()
      ensures NoDuplicates(old(imagesToDelete)) ==>
        TotalImages() == old(TotalImages()) + (if url in old(imagesToDelete) then 1 else -1)
    {
      forall u | u != url
        ensures u in Toggled(imagesToDelete, url) <==> u in imagesToDelete
      {
        ToggledMembership(imagesToDelete, url, u);
      }
      ToggledMembership(imagesToDelete, url, url);
      if NoDuplicates(imagesToDelete) {
        ToggledNoDuplicates(imagesToDelete, url);
        if url in imagesToDelete { RemovedCount(imagesToDelete, url); }
      }
      imagesToDelete := Toggled(imagesToDelete, url);
    }

    /**
     * handleImageUpload: only the first `20 - totalImages` offered files are
     * looked at (a negative budget counts back from the end, as slice does);
     * those of an allowed type within 5 MiB are appended to newImages in order.
     */
    method HandleImageUpload(files: Option<seq<ImageFile>>)
      modifies this
      ensures files.None? ==> newImages == old(newImages)
      ensures files.Some? ==>
        newImages == old(newImages) + AcceptedFiles(Slice(files.value, MaxImages - old(TotalImages())))
      ensures existingImages == old(existingImages) && imagesToDelete == old(imagesToDelete)
      ensures newImagePreviews == old(newImagePreviews)
      ensures old(TotalImages()) <= MaxImages ==> TotalImages() <= MaxImages
    {
      if files.None? {
        return;
      }
      var totalCurrentImages := |existingImages| - |imagesToDelete| + |newImages|;
      var maxNewFiles := MaxImages - totalCurrentImages;
      var validFiles := SelectValidFiles(Slice(files.value, maxNewFiles));
      if totalCurrentImages <= MaxImages {
        BudgetBoundsUpload(totalCurrentImages, files.value);
      }
      newImages := newImages + validFiles;
    }

    /** removeNewImage: drops position index from the new images and from their previews. */
    method RemoveNewImage(index: int)
      modifies this
      ensures newImages == RemoveAt(old(newImages), index)
      ensures newImagePreviews == RemoveAt(old(newImagePreviews), index)
      ensures 0 <= index < |old(newImages)| ==>
        newImages == old(newImages)[..index] + old(newImages)[index + 1..]
      ensures existingImages == old(existingImages) && imagesToDelete == old(imagesToDelete)
    {
      RemoveAtSpec(newImages, index);
      newImages := RemoveAt(newImages, index);
      newImagePreviews := RemoveAt(newImagePreviews, index);
    }
  }

  /** A marked image unmarked at the cap takes the count past 20. */
  method UnmarkPastCap(form: EditForm, url: string)
    requires form.TotalImages() == MaxImages
    requires NoDuplicates(form.imagesToDelete) && url in form.imagesToDelete
    modifies form
    ensures form.TotalImages() == MaxImages + 1
  {
    form.ToggleDeleteExistingImage(url);
  }

  // ----- the update payload -----

  /**
   * The edit form's fields. Number inputs are given as parsed: None for an
   * empty field, the parsed number otherwise.
   */
  datatype EditFormData = EditFormData(
    title: string,
    description: string,
    price: Option<real>,
    area: Option<real>,
    floors: Option<int>,
    bedrooms: Option<int>,
    bathrooms: Option<int>,
    city: string,
    district: string,
    ward: string,
    street: string,
    address: string,
    vipType: string,
    legalDocuments: string,
    interior: string,
    houseDirection: string,
    balconyDirection: string,
    accessRoad: Option<real>,
    frontage: Option<real>)

  /** The columns the update writes; None is SQL null. updated_at is left out. */
  datatype UpdatePayload = UpdatePayload(
    title: string,
    description: Option<string>,
    price: real,
    area: real,
    floors: Option<int>,
    bedrooms: Option<int>,
    bathrooms: Option<int>,
    city: string,
    district: string,
    ward: Option<string>,
    street: Option<string>,
    address: Option<string>,
    vipType: Option<string>,
    images: seq<string>,
    legalDocuments: Option<string>,
    interior: Option<string>,
    houseDirection: Option<string>,
    balconyDirection: Option<string>,
    accessRoad: Option<real>,
    frontage: Option<real>)

  /**
   * The object passed to update(); submission happens only after the form
   * validated, so title and district are the trimmed form text and never
   * empty, and price and area are the parsed, positive numbers; city, the
   * counts and the two road measures are passed through as entered; the
   * images are the existing ones not marked for deletion, then the urls of
   * the new images that uploaded.
   */
  function BuildUpdate(f: EditFormData, existing: seq<string>, toDelete: seq<string>, uploaded: seq<string>): (r: UpdatePayload)
    requires ValidateForm(f.title, f.price, f.area, f.district) == Valid
    ensures r.title != "" && r.title == Trim(f.title)
    ensures r.district != "" && r.district == Trim(f.district)
    ensures r.price == f.price.value > 0.0 && r.area == f.area.value > 0.0
    ensures r.images == FinalImages(existing, toDelete, uploaded)
    ensures r.city == f.city
    ensures r.floors == f.floors && r.bedrooms == f.bedrooms && r.bathrooms == f.bathrooms
    ensures r.accessRoad == f.accessRoad && r.frontage == f.frontage
  {
    BlankIffAllWhitespace(f.title);
    BlankIffAllWhitespace(f.district);
    UpdatePayload(
      title := Trim(f.title),
      description := OrNull(Trim(f.description)),
      price := f.price.value,
      area := f.area.value,
      floors := f.floors,
      bedrooms := f.bedrooms,
      bathrooms := f.bathrooms,
      city := f.city,
      district := Trim(f.district),
      ward := OrNull(Trim(f.ward)),
      street := OrNull(Trim(f.street)),
      address := OrNull(Trim(f.address)),
      vipType := if f.vipType == "none" then None else Some(f.vipType),
      images := FinalImages(existing, toDelete, uploaded),
      legalDocuments := OrNull(f.legalDocuments),
      interior := OrNull(f.interior),
      houseDirection := OrNull(f.houseDirection),
      balconyDirection := OrNull(f.balconyDirection),
      accessRoad := f.accessRoad,
      frontage := f.frontage)
  }

  /**
   * The null rules of the update: vip_type is null exactly for "none";
   * ward, street, address and description are null exactly when blank and
   * otherwise the trimmed form text; the select fields are null exactly when
   * empty and otherwise the selected value; a tier other than "none" is sent
   * as chosen.
   */
  lemma UpdatePayloadNulls(f: EditFormData, existing: seq<string>, toDelete: seq<string>, uploaded: seq<string>)
    requires ValidateForm(f.title, f.price, f.area, f.district) == Valid
    ensures BuildUpdate(f, existing, toDelete, uploaded).vipType.None? <==> f.vipType == "none"
    ensures BuildUpdate(f, existing, toDelete, uploaded).ward.None? <==> AllWhitespace(f.ward)
    ensures BuildUpdate(f, existing, toDelete, uploaded).street.None? <==> AllWhitespace(f.street)
    ensures BuildUpdate(f, existing, toDelete, uploaded).address.None? <==> AllWhitespace(f.address)
    ensures BuildUpdate(f, existing, toDelete, uploaded).description.None? <==> AllWhitespace(f.description)
    ensures BuildUpdate(f, existing, toDelete, uploaded).ward.Some? ==> BuildUpdate(f, existing, toDelete, uploaded).ward.value == Trim(f.ward)
    ensures BuildUpdate(f, existing, toDelete, uploaded).street.Some? ==> BuildUpdate(f, existing, toDelete, uploaded).street.value == Trim(f.street)
    ensures BuildUpdate(f, existing, toDelete, uploaded).address.Some? ==> BuildUpdate(f, existing, toDelete, uploaded).address.value == Trim(f.address)
    ensures BuildUpdate(f, existing, toDelete, uploaded).description.Some? ==> BuildUpdate(f, existing, toDelete, uploaded).description.value == Trim(f.description)
    ensures BuildUpdate(f, existing, toDelete, uploaded).legalDocuments.None? <==> f.legalDocuments == ""
    ensures BuildUpdate(f, existing, toDelete, uploaded).interior.None? <==> f.interior == ""
    ensures BuildUpdate(f, existing, toDelete, uploaded).houseDirection.None? <==> f.houseDirection == ""
    ensures BuildUpdate(f, existing, toDelete, uploaded).balconyDirection.None? <==> f.balconyDirection == ""
    ensures f.vipType != "none" ==> BuildUpdate(f, existing, toDelete, uploaded).vipType == Some(f.vipType)
    ensures f.legalDocuments != "" ==> BuildUpdate(f, existing, toDelete, uploaded).legalDocuments == Some(f.legalDocuments)
    ensures f.interior != "" ==> BuildUpdate(f, existing, toDelete, uploaded).interior == Some(f.interior)
    ensures f.houseDirection != "" ==> BuildUpdate(f, existing, toDelete, uploaded).houseDirection == Some(f.houseDirection)
    ensures f.balconyDirection != "" ==> BuildUpdate(f, existing, toDelete, uploaded).balconyDirection == Some(f.balconyDirection)
  {
    BlankIffAllWhitespace(f.ward);
    BlankIffAllWhitespace(f.street);
    BlankIffAllWhitespace(f.address);
    BlankIffAllWhitespace(f.description);
  }
}
