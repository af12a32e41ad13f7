# Real-estate classifieds: verified model of the client and edge-function logic

The repository is a Vietnamese real-estate classifieds site. It has listing pages, a favorites list, a form to post a property, a form to edit a property, and a hosted database with object storage. This project models the parts of it that compute something, and proves what they promise:

- **Image validation edge function** (`image_check.dfy`). This covers:
  - the magic-byte table for JPEG, PNG, GIF and WebP;
  - `validateMagicBytes` and `detectActualType`, written as loops with a `matches` flag and an early exit;
  - the request handler's chain of guards: preflight, authorization, user lookup, file present, size at most 5 MiB, declared type allowed, content signature.
  The handler is a pure decision over an abstract request.
- **Favorites provider** (`favorites.dfy`, over the list-as-set operations in `list_set.dfy`). This is a class holding the `favorites` list, with add, remove, toggle, membership and clear.
- **Rules the post and edit pages share** (`property_form.dfy`):
  - the accepted image types and the 5 MiB limit;
  - the 20-image cap, with JavaScript `slice` semantics for the budget;
  - the per-file filter loop;
  - removal of one image by index;
  - `validateForm`.
- **Post page** (`post_property.dfy`):
  - `slugify`, with the Unicode case and decomposition tables as a parameter;
  - the `listing_type` for a VIP tier;
  - the selected-images state.
- **Edit page** (`edit_property.dfy`):
  - the VIP tier read back from the stored row;
  - marking existing images for deletion;
  - the budget for new images;
  - removal of a new image;
  - the final image list;
  - the null rules of the update payload.
- **Gallery** (`gallery.dfy`). The image list is padded to four entries by a loop. The viewer's index steps forward and back with wrap-around.
- **Favorites page display helpers** (`favorites_page.dfy`):
  - relative-date buckets;
  - the price unit;
  - the rounded price per square metre;
  - the address line;
  - the upper-cased VIP badge.
- **Header** (`header.dfy`). The active-link test for the desktop bar and the mobile menu, and the mobile menu flag.

`common.dfy` holds the JavaScript `String.prototype.trim` (with the ECMAScript whitespace set), the blank test, ASCII case mapping, and `s || null`.

Where the code changes state (the favorites provider, the pages' image lists, the gallery viewer, the header menu), the model is a class whose methods have `modifies` clauses. The methods that update a list are proved against a specification function of the old state and keep the list's invariant (no duplicates, marks that are existing images, at most 20 images, an index within the gallery). The methods that only set a flag or an index state the new value directly: opening and closing the viewer, clearing the favorites, and toggling or closing the mobile menu. Loops are modelled as methods with loop invariants: the magic-byte scans, the file filter and the gallery padding.

## Model

| member | source | states |
|---|---|---|
| Common.Trim | src/pages/EditPropertyPage.tsx:300 | `trim()` returns the stretch of the input that follows its leading whitespace; every character outside that stretch is whitespace, and a non-empty result starts and ends with a character that is not whitespace |
| Common.IsBlank | src/pages/PostPropertyPage.tsx:123 | `!s.trim()` holds exactly when every character of s is ECMAScript whitespace |
| Common.BlankIffAllWhitespace | src/pages/PostPropertyPage.tsx:123 | a string trims to "" exactly when every character of it is ECMAScript whitespace |
| Common.AsciiLower | src/pages/PostPropertyPage.tsx:168 | lower-casing keeps the length and leaves no upper-case ASCII letter |
| Common.AsciiUpper | src/pages/Favorites.tsx:56 | upper-casing keeps the length and leaves no lower-case ASCII letter |
| Common.UpperOfLower | src/pages/Favorites.tsx:56 | upper-casing a lower-cased string equals upper-casing the original |
| Common.UpperKeepsUpper | src/pages/Favorites.tsx:56 | upper-casing leaves a string without lower-case letters unchanged |
| ListSet.Added | src/hooks/useFavorites.tsx:31 | after adding, x is present and the old list is a prefix of the new one |
| ListSet.Removed | src/hooks/useFavorites.tsx:35 | filtering out x never lengthens the list and leaves no x in it |
| ListSet.Toggled | src/hooks/useFavorites.tsx:38-42 | x is in the toggled list exactly when it was not in the list before |
| ListSet.RemovedMembership | src/hooks/useFavorites.tsx:35 | y survives removal of x exactly when y was present and y differs from x |
| ListSet.RemovedDistributes | src/hooks/useFavorites.tsx:35 | removal distributes over concatenation, so the survivors keep their order |
| ListSet.RemovedAbsent | src/hooks/useFavorites.tsx:35 | removing an absent id leaves the list unchanged |
| ListSet.RemovedNoDuplicates | src/hooks/useFavorites.tsx:35 | a list without duplicates stays without duplicates after removal |
| ListSet.RemovedCount | src/pages/EditPropertyPage.tsx:184-186 | in a list without duplicates, removing a present entry shortens it by exactly one |
| ListSet.AddedMembership | src/hooks/useFavorites.tsx:31 | y is present after adding x exactly when y was present or y is x |
| ListSet.AddedIdempotent | src/hooks/useFavorites.tsx:30-32 | adding twice is adding once; adding a present id changes nothing |
| ListSet.AddedNoDuplicates | src/hooks/useFavorites.tsx:31 | adding keeps a list free of duplicates |
| ListSet.ToggledMembership | src/hooks/useFavorites.tsx:38-42 | toggling flips x's membership and keeps every other id's membership |
| ListSet.ToggledTwice | src/hooks/useFavorites.tsx:38-42 | toggling an absent id twice restores the original list |
| ListSet.ToggledNoDuplicates | src/hooks/useFavorites.tsx:39-41 | toggling keeps a list free of duplicates |
| Favorites.FavoritesProvider.constructor | src/hooks/useFavorites.tsx:17-24 | the provider starts with the stored list |
| Favorites.FavoritesProvider.AddFavorite | src/hooks/useFavorites.tsx:30-32 | the new list is the add of the old one; the id is then a favorite; no duplicates is preserved |
| Favorites.FavoritesProvider.RemoveFavorite | src/hooks/useFavorites.tsx:34-36 | the new list is the filter of the old one; the id is gone; every other id keeps its membership; no duplicates is preserved |
| Favorites.FavoritesProvider.ToggleFavorite | src/hooks/useFavorites.tsx:38-42 | `isFavorite(id)` flips; every other id keeps its membership; no duplicates is preserved |
| Favorites.FavoritesProvider.IsFavorite | src/hooks/useFavorites.tsx:44 | an id is a favorite exactly when some position of the list holds it |
| Favorites.FavoritesProvider.ClearFavorites | src/hooks/useFavorites.tsx:46 | the list becomes empty |
| Favorites.ToggleTwice | src/hooks/useFavorites.tsx:38-44 | two toggles of an absent id leave the provider's list as it was |
| ImageCheck.Lookup | supabase/functions/validate-image/index.ts:22-23 | a table entry is found only under its exact MIME name; any other string has none |
| ImageCheck.MatchesAt | supabase/functions/validate-image/index.ts:27-31 | a non-empty signature matches only content that holds every one of its bytes, so the content reaches past the signature's end |
| ImageCheck.TableMatch | supabase/functions/validate-image/index.ts:25-44 | content that passes type t's check is at least as long as t's signature, and WebP content holds at least 12 bytes (the fourcc at offset 8) |
| ImageCheck.SignatureMatches | supabase/functions/validate-image/index.ts:26-32 | the flag loop ends true exactly when every signature byte is present and equal at the offset |
| ImageCheck.ValidateMagicBytes | supabase/functions/validate-image/index.ts:21-47 | true exactly when the declared type has a table entry and the content passes that entry's check, WEBP fourcc included |
| ImageCheck.DetectActualType | supabase/functions/validate-image/index.ts:49-78 | returns the first type, in table order, whose check passes, or null |
| ImageCheck.FirstMatch | supabase/functions/validate-image/index.ts:50-77 | a reported type belongs to the scanned order and passes its check |
| ImageCheck.MatchesAtStart | supabase/functions/validate-image/index.ts:27-31 | matching at offset 0 is exactly "the signature is a prefix of the content" |
| ImageCheck.FirstByteDecides | supabase/functions/validate-image/index.ts:14-18 | content that passes type t's check starts with t's first signature byte |
| ImageCheck.FormatSignature | supabase/functions/validate-image/index.ts:14-19 | content carrying a published signature is at least as long as the table's signature, and WebP content at least 12 bytes |
| ImageCheck.TableMatchesFormats | supabase/functions/validate-image/index.ts:14-19 | the table's check for each type is exactly the published signature: JPEG SOI plus FF, 0x89 "PNG", "GIF8", "RIFF" with "WEBP" at offset 8 |
| ImageCheck.ShortFileFails | supabase/functions/validate-image/index.ts:27-31 | content shorter than the signature never matches, because missing bytes compare unequal |
| ImageCheck.RiffWaveIsNotWebp | supabase/functions/validate-image/index.ts:34-42 | a RIFF file whose form type is WAVE fails the WebP check and is detected as nothing |
| ImageCheck.SignaturesExclusive | supabase/functions/validate-image/index.ts:14-18 | no content passes the checks of two different types |
| ImageCheck.FirstMatchSpec | supabase/functions/validate-image/index.ts:50-77 | the scan reports a type whose check passes, and reports null exactly when no type in the order passes |
| ImageCheck.DetectIffMatch | supabase/functions/validate-image/index.ts:49-78 | detection reports t exactly when t's check passes |
| ImageCheck.ValidateAgreesWithDetect | supabase/functions/validate-image/index.ts:21-78 | validating against a declared type holds exactly when detection returns that declared type |
| ImageCheck.Handle | supabase/functions/validate-image/index.ts:86-186 | there is no body exactly for OPTIONS; the status is one of 200, 400, 401, 500; valid holds exactly for 200; an error is present exactly when not valid |
| ImageCheck.AllowListIsTable | supabase/functions/validate-image/index.ts:10-19 | the allow-list and the table's keys are the same four strings |
| ImageCheck.AcceptedIff | supabase/functions/validate-image/index.ts:88-178 | a 200 with a body happens exactly when the request is authenticated, the file is present and at most 5 MiB, the declared type is allowed, and the content carries that type's published signature |
| ImageCheck.SuccessReportsDeclaredType | supabase/functions/validate-image/index.ts:168-173 | on success the reported detectedType is the declared type |
| ImageCheck.MismatchReportsDetection | supabase/functions/validate-image/index.ts:156-166 | a content mismatch gives 400 and includes detectedType exactly when detection found a type, which is never the declared one |
| ImageCheck.OversizeRefused | supabase/functions/validate-image/index.ts:133-138 | once authenticated, a file over 5 MiB gets 400 "File exceeds maximum size of 5MB" whatever its content |
| ImageCheck.GuardOrder | supabase/functions/validate-image/index.ts:88-146 | OPTIONS gets 200 with no body; then a missing header gives 401 "Unauthorized"; no user gives 401 "Invalid authentication"; no file gives 400 "No file provided"; a file within 5 MiB with a missing, empty or non-allowed `type` gives 400 "Invalid file type: " followed by that type |
| ImageCheck.ThrownFaults | supabase/functions/validate-image/index.ts:180-185 | a fault thrown by the auth exchange or by the form read gives 500 "Internal server error" with valid false |
| ImageCheck.PngDeclaredAsJpeg | supabase/functions/validate-image/index.ts:153-166 | a PNG declared as image/jpeg is refused with 400 and reported as image/png |
| PropertyForm.AcceptedFiles | src/pages/PostPropertyPage.tsx:86-105 | never more files come out than go in, and every file that comes out has an allowed type and at most 5 MiB |
| PropertyForm.AcceptedDistributes | src/pages/PostPropertyPage.tsx:86-112 | the per-file filter distributes over concatenation, so accepted files keep their order |
| PropertyForm.AcceptedFilesSpec | src/pages/PostPropertyPage.tsx:86-105 | a file is kept exactly when it was offered, has an allowed type and is at most 5 MiB |
| PropertyForm.SelectValidFiles | src/pages/PostPropertyPage.tsx:84-112 | the forEach loop pushes exactly the accepted files, in order |
| PropertyForm.Slice | src/pages/EditPropertyPage.tsx:196-197 | `slice(0, end)` is a prefix of the files: end entries for an end from 0 to the length, all of them for a larger end, and all but the last -end (or none) for a negative end |
| PropertyForm.BudgetBoundsUpload | src/pages/PostPropertyPage.tsx:83 | from a count of at most 20, the count plus the files accepted from `slice(0, 20 - count)` stays at most 20 |
| PropertyForm.NegativeBudgetKeepsPrefix | src/pages/EditPropertyPage.tsx:196-197 | with a negative budget, `slice` is not empty: it keeps a prefix of the batch |
| PropertyForm.RemoveAt | src/pages/PostPropertyPage.tsx:117-120 | filtering by index gives a list one shorter when the index is a position of the list, and as long otherwise |
| PropertyForm.RemoveAtSpec | src/pages/PostPropertyPage.tsx:117-120 | filtering by index removes exactly that position when it exists and otherwise changes nothing |
| PropertyForm.ValidateForm | src/pages/PostPropertyPage.tsx:122-140 | the form is valid exactly when the title and district are not blank and price and area are positive; each failure names the first failing check in order (same function as src/pages/EditPropertyPage.tsx:238-256) |
| PostProperty.LowerCase | src/pages/PostPropertyPage.tsx:37 | on ASCII text `toLowerCase()` is the ASCII lower-casing: same length, each capital replaced by its small letter, no capital left |
| PostProperty.Decompose | src/pages/PostPropertyPage.tsx:38 | `normalize("NFD")` leaves ASCII text unchanged |
| PostProperty.StripMarks | src/pages/PostPropertyPage.tsx:38 | removing U+0300 to U+036F never lengthens the text, leaves no combining mark, and changes nothing in text without one |
| PostProperty.StripMarksDistributes | src/pages/PostPropertyPage.tsx:38 | the removal works character by character: a mark is dropped, any other character kept, in order |
| PostProperty.ReplaceDStroke | src/pages/PostPropertyPage.tsx:39 | every đ becomes d and every other character stays in its place |
| PostProperty.CollapseRuns | src/pages/PostPropertyPage.tsx:40 | the result has only a-z, 0-9 and single dashes; text starting with [a-z0-9] keeps its first character |
| PostProperty.CollapseKeepsSlugChars | src/pages/PostPropertyPage.tsx:40 | the [a-z0-9] characters of the text all survive the collapsing, in order |
| PostProperty.CollapseIsMarkThenMerge | src/pages/PostPropertyPage.tsx:40 | the collapsing equals a second definition: every character outside [a-z0-9] turned into a dash, then adjacent dashes merged; so each maximal run becomes exactly one dash |
| PostProperty.MergeRun | src/pages/PostPropertyPage.tsx:40 | a run outside [a-z0-9] marks and merges into a single dash followed by the rest |
| PostProperty.TrimDashes | src/pages/PostPropertyPage.tsx:41 | the result is the stretch of the text after its leading dashes, every character outside it is a dash, it has no dash at either end, and a dash-separated text stays so |
| PostProperty.Slugify | src/pages/PostPropertyPage.tsx:35-42 | the slug has only a-z, 0-9 and '-', never "--", and no dash at either end |
| PostProperty.SlugKeepsLettersAndDigits | src/pages/PostPropertyPage.tsx:35-42 | the letters and digits of the slug are exactly those of the lower-cased, decomposed, mark-free, đ-replaced title, in order |
| PostProperty.SlugOfAscii | src/pages/PostPropertyPage.tsx:35-42 | for an ASCII title the slug's letters and digits are the title's lower-cased letters and its digits, in order |
| PostProperty.DropLeadingKeepsSlugChars | src/pages/PostPropertyPage.tsx:41 | cutting the leading dashes loses no letter or digit |
| PostProperty.DropTrailingKeepsSlugChars | src/pages/PostPropertyPage.tsx:41 | cutting the trailing dashes loses no letter or digit |
| PostProperty.CollapseKeepsSlug | src/pages/PostPropertyPage.tsx:40 | collapsing runs outside [a-z0-9] leaves a dash-separated string unchanged |
| PostProperty.SlugAlphabetFixed | src/pages/PostPropertyPage.tsx:37-39 | lower-casing, decomposing, stripping marks and replacing đ leave a string over [a-z0-9-] unchanged |
| PostProperty.SlugifyFixesSlugs | src/pages/PostPropertyPage.tsx:35-42 | slugify returns a slug unchanged |
| PostProperty.SlugifyIdempotent | src/pages/PostPropertyPage.tsx:35-42 | `slugify(slugify(s)) == slugify(s)` |
| PostProperty.DStrokeBecomesD | src/pages/PostPropertyPage.tsx:37-39 | both "đ" and "Đ" slugify to "d" |
| PostProperty.ListingType | src/pages/PostPropertyPage.tsx:168 | listing_type has no capital letter, and for a tier it is as long as the tier |
| PostProperty.ListingTypeValues | src/pages/PostPropertyPage.tsx:168 | listing_type is "thuong" exactly for "none"; KIMCUONG, VANG and BAC give "kimcuong", "vang" and "bac", each of which upper-cases back to the tier |
| PostProperty.PostForm.constructor | src/pages/PostPropertyPage.tsx:49-50 | the selection and previews start empty |
| PostProperty.PostForm.HandleImageUpload | src/pages/PostPropertyPage.tsx:79-115 | without files nothing changes; otherwise the accepted files of the first `20 - selected` are appended in order; a selection within 20 stays within 20 |
| PostProperty.PostForm.RemoveImage | src/pages/PostPropertyPage.tsx:117-120 | exactly position index leaves both lists; the rest keep their order |
| EditProperty.VipFromStored | src/pages/EditPropertyPage.tsx:131-135 | the form tier is one of the four values; it is not "none" exactly when the stored value is one of the three lower-case tiers, and then it is that value |
| EditProperty.Kept | src/pages/EditPropertyPage.tsx:292 | the kept list is never longer than the existing list and holds no url marked for deletion |
| EditProperty.KeptMembership | src/pages/EditPropertyPage.tsx:292 | an image is kept exactly when it exists and is not marked |
| EditProperty.KeptDistributes | src/pages/EditPropertyPage.tsx:292 | keeping distributes over concatenation, so kept images keep their order |
| EditProperty.KeptNothingMarked | src/pages/EditPropertyPage.tsx:292 | with nothing marked, every existing image is kept |
| EditProperty.KeptNoDuplicates | src/pages/EditPropertyPage.tsx:292 | keeping preserves a list without duplicates |
| EditProperty.FinalImages | src/pages/EditPropertyPage.tsx:291-294 | the uploaded urls end the final list, in order; it is at most existing plus uploaded long; no url before the uploaded ones is marked for deletion |
| EditProperty.FinalImagesSpec | src/pages/EditPropertyPage.tsx:290-294 | a url is final exactly when it is kept or uploaded; a marked url survives only if uploaded again; with nothing marked the list is existing then uploaded |
| EditProperty.ElementsCount | src/pages/EditPropertyPage.tsx:372 | a list without duplicates has as many elements as its set |
| EditProperty.TotalCountsFinalImages | src/pages/EditPropertyPage.tsx:372 | with distinct marks that are all existing images, `existing - toDelete + new` is the length of the final list when every upload succeeds |
| EditProperty.EditForm.constructor | src/pages/EditPropertyPage.tsx:129 | the form starts with the stored images, nothing marked and nothing new |
| EditProperty.EditForm.TotalImages | src/pages/EditPropertyPage.tsx:195 | the count is at most the existing plus the new images, and exactly that when nothing is marked |
| EditProperty.EditForm.ToggleDeleteExistingImage | src/pages/EditPropertyPage.tsx:182-188 | the url's mark flips and other marks stay; consistency of the marks is preserved; the image count moves by one in the matching direction |
| EditProperty.EditForm.HandleImageUpload | src/pages/EditPropertyPage.tsx:191-230 | the accepted files of `slice(0, 20 - total)` are appended in order; other state is unchanged; a total within 20 stays within 20 |
| EditProperty.EditForm.RemoveNewImage | src/pages/EditPropertyPage.tsx:233-236 | exactly position index leaves the new images and their previews |
| EditProperty.UnmarkPastCap | src/pages/EditPropertyPage.tsx:182-188 | unmarking an image at a total of 20 brings the total to 21 |
| EditProperty.BuildUpdate | src/pages/EditPropertyPage.tsx:290-321 | after validation the payload's title and district are the trimmed form text and never empty; price and area are the form's parsed numbers, both positive; city, floors, bedrooms, bathrooms, access_road and frontage are the form's values; the images are the existing images not marked for deletion followed by the uploaded urls (`FinalImages`) |
| EditProperty.UpdatePayloadNulls | src/pages/EditPropertyPage.tsx:300-321 | vip_type is null exactly for "none"; ward, street, address and description are null exactly when blank and otherwise the trimmed form text; the four select fields are null exactly when empty and otherwise the selected value; a tier other than "none" is sent as chosen |
| Gallery.Fill | src/components/PropertyGallery.tsx:18 | the fill is the first url when the list has one and it is not empty, and the placeholder otherwise; it is never empty |
| Gallery.PadImages | src/components/PropertyGallery.tsx:16-19 | the length is max(4, \|images\|); the images come first, unchanged; every added slot is the fill |
| Gallery.Next | src/components/PropertyGallery.tsx:30-32 | a step forward from an index of the list stays an index of the list |
| Gallery.Previous | src/components/PropertyGallery.tsx:26-28 | a step back from an index of the list stays an index of the list |
| Gallery.StepsWrapAround | src/components/PropertyGallery.tsx:26-32 | both steps stay within [0, n) and equal stepping modulo n |
| Gallery.StepsInverse | src/components/PropertyGallery.tsx:26-32 | previous undoes next and next undoes previous |
| Gallery.Viewer.constructor | src/components/PropertyGallery.tsx:12-19 | the viewer starts closed at index 0 over a list of max(4, \|images\|) entries that begins with the images, every added slot holding the fill |
| Gallery.Viewer.OpenViewer | src/components/PropertyGallery.tsx:21-24 | sets the index and opens the viewer |
| Gallery.Viewer.OpenMain | src/components/PropertyGallery.tsx:45 | the large image opens the viewer at index 0 |
| Gallery.Viewer.OpenThumbnail | src/components/PropertyGallery.tsx:55-61 | small image k opens index k + 1, which shows that same image |
| Gallery.Viewer.GoToPrevious | src/components/PropertyGallery.tsx:26-28 | the index becomes the previous one and stays valid |
| Gallery.Viewer.GoToNext | src/components/PropertyGallery.tsx:30-32 | the index becomes the next one and stays valid |
| Gallery.Viewer.SelectThumbnail | src/components/PropertyGallery.tsx:113 | a thumbnail of the strip selects its index |
| Gallery.Viewer.Close | src/components/PropertyGallery.tsx:74 | closes the viewer and keeps the index |
| Gallery.NextThenPrevious | src/components/PropertyGallery.tsx:26-32 | next then previous returns to the same index |
| FavoritesPage.DecimalString | src/pages/Favorites.tsx:30-32 | a printed count is a non-empty string of digits |
| FavoritesPage.DecimalRoundTrip | src/pages/Favorites.tsx:30-32 | reading the printed digits back gives the count |
| FavoritesPage.Bucket | src/pages/Favorites.tsx:28-32 | a day count is shown only from 2 to 6 and as itself; weeks run from 1 to 4; months start at 1 |
| FavoritesPage.FormatDate | src/pages/Favorites.tsx:28-32 | the label is never empty; 0 and 1 day give a "Hôm …" word; older labels open with a digit |
| FavoritesPage.BucketRanges | src/pages/Favorites.tsx:28-32 | 0 is today and 1 is yesterday; 2-6 give that many days; 7-29 give 1-4 weeks bracketing the days; from 30 on, at least one month bracketing the days |
| FavoritesPage.BucketMonotone | src/pages/Favorites.tsx:28-32 | an older listing never gets an earlier bucket |
| FavoritesPage.UnitOf | src/pages/Favorites.tsx:11-19 | the quotient written before "tỷ" is at least 1, and the one written before "triệu" is at least 1 and below 1000 |
| FavoritesPage.UnitOfRanges | src/pages/Favorites.tsx:11-19 | "tỷ" from 1e9 up, "triệu" from 1e6 below 1e9, "đ" below 1e6; the unit never shrinks as the price grows |
| FavoritesPage.Round | src/pages/Favorites.tsx:62 | `Math.round` gives the integer within half of x, halves rounded up |
| FavoritesPage.PricePerM2 | src/pages/Favorites.tsx:62 | present exactly when the area is positive, and then within half of price / area |
| FavoritesPage.Present | src/pages/Favorites.tsx:64 | `filter(Boolean)` never lengthens the parts and leaves no empty one |
| FavoritesPage.PresentSpec | src/pages/Favorites.tsx:64 | a string survives `filter(Boolean)` exactly when it is non-empty and one of the parts |
| FavoritesPage.PresentAppend | src/pages/Favorites.tsx:64 | the filter works part by part: filtering two lists one after the other is filtering each and concatenating, so the survivors keep their order |
| FavoritesPage.Join | src/pages/Favorites.tsx:64 | a join of at least one part opens with the first part |
| FavoritesPage.JoinAppend | src/pages/Favorites.tsx:64 | joining one more part adds the separator and the part at the end |
| FavoritesPage.PresentCons | src/pages/Favorites.tsx:64 | the filtered list is what the first part contributes (itself if a non-empty string, else nothing), then the filtered rest |
| FavoritesPage.PresentOne | src/pages/Favorites.tsx:64 | filtering a single part leaves what it contributes: itself if a non-empty string, else nothing |
| FavoritesPage.PresentFour | src/pages/Favorites.tsx:64 | filtering the four address parts is the concatenation of what each contributes, in the order street, ward, district, city |
| FavoritesPage.JoinCons | src/pages/Favorites.tsx:64 | a join of two or more parts is the first part, the separator, then the join of the rest |
| FavoritesPage.Address | src/pages/Favorites.tsx:64 | the address line is the join with ", " of the parts that are non-empty strings, in the order street, ward, district, city; a non-empty street opens it |
| FavoritesPage.AddressAllPresent | src/pages/Favorites.tsx:64 | with all four parts the address is "street, ward, district, city" |
| FavoritesPage.AddressSkipsMissing | src/pages/Favorites.tsx:64 | a null street and an empty street give the same line; with only the city the line is the city; with nothing the line is empty |
| FavoritesPage.AddressCityOnly | src/pages/Favorites.tsx:64 | with street, ward and district null the address line is the city |
| FavoritesPage.AddressNothing | src/pages/Favorites.tsx:64 | with all four parts null the address line is empty |
| FavoritesPage.AddressNullIsEmpty | src/pages/Favorites.tsx:64 | in each of the four slots, whatever the other three hold, a null part and an empty part give the same line |
| FavoritesPage.AddressByParts | src/pages/Favorites.tsx:64 | two address inputs whose slots contribute the same parts give the same line |
| FavoritesPage.NormalizeVip | src/pages/Favorites.tsx:56 | a missing vip_type gives no badge value, and a present one keeps its length |
| FavoritesPage.NormalizeVipSpec | src/pages/Favorites.tsx:56 | normalizing is idempotent; a tier stored lower-case shows as its upper-case name |
| Header.IsActiveDesktop | src/components/layout/Header.tsx:54 | an active link's href begins the path |
| Header.IsActiveMobile | src/components/layout/Header.tsx:110 | a link highlighted in the mobile menu is highlighted on the desktop bar too |
| Header.ActiveDesktopMeaning | src/components/layout/Header.tsx:54 | active exactly when the href is a prefix of the path that is followed by nothing or by "/" |
| Header.TextualPrefixNotActive | src/components/layout/Header.tsx:54 | "/tin-tucx" does not activate "/tin-tuc", but "/tin-tuc/bai-viet" does |
| Header.ActiveBelow | src/components/layout/Header.tsx:54 | every path below an active path keeps the link active |
| Header.MobileStricter | src/components/layout/Header.tsx:110 | mobile-active implies desktop-active; a sub-path is desktop-active but not mobile-active |
| Header.ActiveSharesSecondChar | src/components/layout/Header.tsx:54 | an active href agrees with the path on its second character |
| Header.AtMostOneActive | src/components/layout/Header.tsx:7-13 | for any path, at most one of the five links is active |
| Header.HeaderState.constructor | src/components/layout/Header.tsx:16 | the menu starts closed |
| Header.HeaderState.ToggleMenu | src/components/layout/Header.tsx:75 | the menu button flips the flag |
| Header.HeaderState.FollowMobileLink | src/components/layout/Header.tsx:107 | following a mobile link closes the menu |

## Left out

- Hosting calls are not modelled: Deno `serve`, `createClient`, `auth.getUser`, `req.formData`, database select, insert and update, and storage `upload` and `getPublicUrl`. The result of the auth exchange and of the form read is an input to `ImageCheck.Handle` (a user, no user, or a thrown fault). The file's bytes are an input, and its size is their length.
- A fault thrown by `file.arrayBuffer()` is not modelled separately. It would take the same 500 path as the other faults.
- `MAGIC_BYTES[declaredType]` would also find inherited object keys such as "constructor". The model's lookup has only the four table keys. The allow-list check runs before the lookup in the handler, so the handler's behaviour is the same.
- CORS headers and `console` logging are not modelled.
- Favorites: the load from and save to `localStorage`, including JSON parsing, are not modelled. The constructor takes the stored list as given.
- `FileReader` previews are not modelled. They arrive asynchronously, so their order is not guaranteed. The upload methods leave the preview list unchanged, and removal by index applies to both lists.
- Toasts, navigation and the `isSubmitting` flag are not modelled. Neither are the random, time-based storage file names or the sequential upload loop. The uploaded URLs are an input to `EditProperty.FinalImages`.
- `parseFloat` and `parseInt` are not modelled. Numeric inputs are given as already parsed: `None` for an empty field.
- Number formatting is not modelled: `toFixed`, `toLocaleString('vi-VN')` and the `~…/m²` text. The favorites page model keeps the unit choice and the rounded value.
- `Date` arithmetic, `Math.abs` and `Math.ceil` in `formatDate` are not modelled. The day count is an input.
- FavoritesPage.NormalizeVip: `toUpperCase` is modelled on ASCII letters only, because stored tiers are ASCII. `item.vip_type?.toUpperCase()` gives `undefined` for a null vip_type; the model has one `None` for both.
- FavoritesPage.UnitOf: bounds the quotient, not the printed number. `toFixed(0)` prints "1000 triệu" for prices from 999,500,000 up to just below 1e9, and the "tỷ" branch prints `toFixed(1)` with a trailing ".0" removed. Number printing is not modelled.
- `PostProperty.Slugify`: `toLowerCase` and NFD decomposition outside ASCII are given as tables in `UnicodeTables`, not the Unicode data. `DStrokeBecomesD` assumes the standard facts it needs: Đ lower-cases to đ, and đ has no decomposition.
- `updated_at` in the update payload is not modelled, because it is a clock reading.
- The rest of the post page's insert payload is not modelled. It uses the same rules as the edit page's update, and only `listing_type` and the slug are specific to it.
- Page layout and the remaining UI files are not modelled.
- `FilterModal.tsx` is not modelled. Its selections are never applied to any data.
- No property filter or sort engine is modelled. The listing pages render fixed data and never apply the chosen filter or sort, so there is nothing to model.

## Notes on the code

- **The `detectedType` fallback never fires.** On success the handler returns `detectedType || declaredType`. Content that passes the declared type's check is always detected as that same type (`ImageCheck.ValidateAgreesWithDetect`). So the value is always the declared type, and the fallback never applies.
- **An empty first gallery image pads with the placeholder.** The padding pushes `images[0] || placeholder`. An empty string as the first url is falsy, so the padded slots then hold the stock photo rather than the first url.
- **The edit page's count can pass 20.** This is an observation about the page, not a defect the model corrects. The upload handler keeps the total within 20. Un-marking an image marked for deletion adds one back with no check, so a total of 20 can become 21 (`EditProperty.UnmarkPastCap`). The file input is disabled at 20 or more, so the upload handler never runs with a negative budget in the page as written. `PropertyForm.NegativeBudgetKeepsPrefix` records what `slice` would do if it did.
