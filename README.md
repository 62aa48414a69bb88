# travelphabet core, modelled in Dafny

travelphabet is a Django site of travel articles organised by initial
letter and by category. This project models the parts of `main/views.py`
and `main/models.py` that hold logic of their own, and proves what they
promise:

- **article_detail's block composer** (`blocks.dfy`, module `Blocks`):
  - the article text is split on newlines and every non-blank line, stripped, becomes a paragraph;
  - paragraphs and the article's images are interleaved by position into display blocks;
  - images left over after the last paragraph are appended.
- **process_and_save_image** (`images.dfy`, module `ImageUpload`):
  - the EXIF orientation tag (274) selects a rotation;
  - the image is shrunk to fit 1200×1200;
  - it is classified as horizontal or vertical from its final size, and an ArticleImage row is recorded for the article.

  An image is modelled by its size.
- **letter_view** (`letters.dfy`, module `Letters`): the letter is lowercased, checked against `LETTERS` with Python's substring test, and its position selects `main/letter_<n>.html`.
- **The category tables** (`categories.dfy`, module `Categories`):
  - `CATEGORY_SLUG_MAP` and `REVERSE_CATEGORY_SLUG_MAP`;
  - the slug lookup of articles_by_category;
  - the category slug that article_detail computes.
- **Article.save and ArticleImage** (`models.dfy`, module `Models`):
  - save is a method of the `Article` class;
  - it fills a blank slug with the first of `base`, `base-1`, `base-2`, … that no row holds;
  - it derives `category_slug` from `category_en` or from `category`;
  - `ORIENTATION_CHOICES` defines the admissible orientation values.
- **The Python string built-ins these use** (`text.dfy`, module `Text`):
  - `str.isspace` and `strip`;
  - `split('\n')` and `'\n'.join`;
  - `lower` and `upper`;
  - `in` and `find` on strings;
  - `str(n)`.

  `wrappers.dfy` holds `Option` and `Result`.

Library code whose behaviour is not in the repository becomes a parameter of the operation that calls it:

- Django's `slugify` is a function `(string, bool) -> string`.
- `unidecode` is a function `string -> string`.
- Pillow's `thumbnail` is a function on sizes. Its contract is the predicate `ImageUpload.IsThumbnailer`, which is proved satisfiable by `ImageUpload.FloorThumbnail`.
- The database's existing slugs are a set.
- The loadable templates are a set of names.

## Model

| member | source | states |
|---|---|---|
| Text.Strip | main/views.py:82 | `p.strip()`: never longer than the input, no whitespace left at either end, and empty exactly when the input is all whitespace |
| Text.StripInfix | main/views.py:82 | what `strip()` keeps is a contiguous piece of the input with only whitespace before and after it |
| Text.SplitLines | main/views.py:82 | `content.split('\n')`: at least one piece, no piece contains a newline, and joining the pieces with newlines gives the content back |
| Text.SplitJoin | main/views.py:82 | splitting undoes joining for newline-free pieces (the other half of the round trip) |
| Text.Lower | main/views.py:45 | `letter.lower()`: the same length, every ASCII capital replaced by its small letter, the Kelvin sign by 'k', every other character kept |
| Text.Upper | main/views.py:58 | `letter.upper()`: the same length, every ASCII small letter replaced by its capital, every other character kept |
| Text.LowerIdempotent | main/views.py:45 | lowercasing an already lowercased letter changes nothing |
| Text.Find | main/views.py:49 | `LETTERS.index(letter)`: the first position at which the needle occurs, and none exactly when `letter in LETTERS` is false |
| Text.DecimalString | main/models.py:31 | the number in `f"{base_slug}-{num}"`: a non-empty digit string without a leading zero (0 is written "0") that reads back as `num` |
| Text.DecimalStringInjective | main/models.py:31 | different collision counters print differently |
| Blocks.Paragraphs | main/views.py:82 | every paragraph is non-empty, has no surrounding whitespace and no newline |
| Blocks.KeepStripped | main/views.py:82 | the `if p.strip()` filter of the comprehension: no more paragraphs than lines, and each is non-empty with no surrounding whitespace |
| Blocks.KeptIndices | main/views.py:82 | the kept line numbers are in range and increasing, and a line is kept exactly when it is not blank after stripping |
| Blocks.KeepStrippedFollowsPieces | main/views.py:82 | the k-th paragraph is the k-th kept line, stripped: the paragraphs are exactly the non-blank lines, stripped, in order |
| Blocks.ParagraphsFollowPieces | main/views.py:82 | the same statement for `content.split('\n')` |
| Blocks.ParagraphsIdempotent | main/views.py:82 | splitting and filtering the joined paragraphs again gives the same paragraphs |
| Blocks.BlankContentHasNoParagraphs | main/views.py:82 | empty or all-whitespace content yields no paragraph |
| Blocks.ComposeBlocks | main/views.py:85-90 | the append loop and the final `extend` build exactly the interleaving of paragraphs and images |
| Blocks.Drop | main/views.py:90 | `images[len(paragraphs):]`: the images after the first `len(paragraphs)`, in order, and none when there are fewer images |
| Blocks.ArticleBlocks | main/views.py:82-90 | the blocks of an article are the interleaving of its paragraphs with its images |
| Blocks.InterleavedLength | main/views.py:85-90 | there are as many blocks as paragraphs plus images |
| Blocks.InterleavedPairs | main/views.py:86-89 | for i below both counts, block 2i is paragraph i and block 2i+1 is image i |
| Blocks.InterleavedTail | main/views.py:86-90 | after the 2·min(p, n) paired blocks come the remaining paragraphs when p > n, and the remaining images otherwise |
| Blocks.InterleavedProjections | main/views.py:85-90 | the paragraph blocks, in order, are exactly the paragraphs, and the image blocks are exactly the images: nothing dropped, duplicated or reordered |
| Blocks.ArticleWithoutTextShowsImages | main/views.py:82-90 | blank content gives just the images, in order |
| Blocks.TextWithoutImages | main/views.py:85-90 | without images the blocks are the paragraphs alone |
| Blocks.TwoParagraphsOneImage | main/views.py:82-90 | "A\n\nB" with one image gives paragraph A, the image, paragraph B |
| Blocks.OnlyText | main/views.py:82-90 | one line of text and no image gives that single paragraph |
| Blocks.OnlyImages | main/views.py:82-90 | empty content with two images gives the two image blocks |
| Models.Candidate | main/models.py:31 | the slug tried after `num` collisions starts with the base slug; it is the base slug itself exactly on the first try, and later ones go on with a dash |
| Models.CandidateInjective | main/models.py:31 | two attempts try the same slug exactly when they are the same attempt |
| Models.NotAmongEarlier | main/models.py:29-32 | the slug of attempt m is none of the slugs tried before it |
| Models.CandidatesCount | main/models.py:29-32 | the first n attempts try n different slugs |
| Models.CandidatesWithin | main/models.py:29-32 | when each of the first n slugs is taken, the set of them lies within the taken slugs |
| Models.TakenBound | main/models.py:29-32 | if the first n candidates are all taken there are at least n taken slugs, so the loop ends |
| Models.UniqueSlug | main/models.py:27-33 | the slug found is not taken, and it is the first of `base`, `base-1`, `base-2`, … that is not taken |
| Models.Article.Save | main/models.py:24-41 | a non-blank slug is kept. A blank one becomes the first free candidate built from `slugify(title, allow_unicode=True)`. `category_slug` comes from the stripped `category_en`, else from the stripped, transliterated `category`, else is left as it was. No other field changes |
| ImageUpload.CorrectOrientation | main/views.py:183-194 | tag 3 (rotate 180°) keeps width and height. Tags 6 and 8 (rotate 270° and 90°) swap them. Any other tag, an empty or missing EXIF block, or an error while reading it leaves the size alone. The result is the size `Upright` gives, which the upload's contract uses |
| ImageUpload.Rotate | main/views.py:188-192 | the size effect of `img.rotate(angle, expand=True)`: the two side lengths are kept, swapped for an odd number of quarter turns and unchanged for an even number |
| ImageUpload.RotateCompose | main/views.py:188-192 | two rotations in a row have the size effect of one rotation by the sum of the angles, so rotating by 270° is the same as by 90° and a full turn changes nothing |
| ImageUpload.Upright | main/views.py:183-194 | the size after the correction keeps the two side lengths and the area; tags 6 and 8 swap width and height, anything else keeps the size |
| ImageUpload.FloorThumbnail | main/views.py:196 | a concrete thumbnail that fits 1200×1200, never enlarges, leaves fitting images alone, keeps the longer side longer and the aspect ratio within one pixel |
| ImageUpload.FloorThumbnailIsThumbnailer | main/views.py:196 | the thumbnail law can be met, so the results that take it as a hypothesis are not vacuous |
| ImageUpload.Classify | main/views.py:198 | the orientation is vertical exactly when the height exceeds the width |
| ImageUpload.OrientationIsChoice | main/models.py:48-55 | the value stored is one of ORIENTATION_CHOICES and is not blank |
| ImageUpload.ImagePath | main/views.py:202 | the stored path is `article_images/` followed by the uploaded file's name, unchanged |
| ImageUpload.ProcessAndSaveImage | main/views.py:180-211 | it fails, with no row, exactly when the file does not decode (`DecodeError`) or when `img.save` cannot write the decoded image (`EncodeError`, for a name without a known extension or an image mode the format cannot store). Otherwise the saved size is the thumbnail of the upright image, and the row belongs to the article the file was uploaded for, with the path `article_images/<name>`. The orientation is a non-blank choice, vertical exactly when the final height exceeds the final width, and the image fits the box |
| ImageUpload.SidewaysPortraitIsHorizontal | main/views.py:183-198 | a portrait-shaped image tagged 6 or 8 is classified horizontal: orientation is taken after the rotation (400×600 tagged 6 becomes 600×400) |
| ImageUpload.LandscapeStaysHorizontal | main/views.py:183-198 | a landscape image without a swapping tag fits the box and stays horizontal |
| ImageUpload.FloorThumbnailExample | main/views.py:196-198 | 3000×1500 becomes 1200×600 and horizontal |
| Letters.LetterView | main/views.py:45-58 | a letter is rejected as invalid exactly when its lowercase form does not occur in `LETTERS`. The page opens exactly when it does occur and the template numbered one more than its first position can be loaded; otherwise the 404 is `TemplateMissing`. An opened page has that number, a loadable template, the lowercased letter for the filter, its upper-case form and the heading |
| Letters.TemplateName | main/views.py:50 | `main/letter_<n>.html`: the prefix and extension are fixed and the number between them reads back as n, so different pages have different templates |
| Letters.Heading | main/views.py:58 | "Abu Dhabi" exactly for the letter a; otherwise "Travel destinations starting with “" followed by the upper-cased letter and a closing quote |
| Letters.OccurrenceInAlphabet | main/views.py:49 | a non-empty string occurs in `LETTERS` only at the position of its first letter |
| Letters.CaseInsensitive | main/views.py:45 | an upper-case letter gives the same page as its lower-case form |
| Letters.SingleLetterIndex | main/views.py:45-55 | a single ASCII letter of either case gets page 1 to 26 in alphabetical order, and the Kelvin sign, which Python lowercases to 'k', gets page 11; it fails only when that template is missing |
| Letters.NonLetterRejected | main/views.py:45-47 | any other single character (neither an ASCII letter nor the Kelvin sign) is an invalid letter; with SingleLetterIndex, a one-character letter is accepted exactly when its lowercase is an ASCII letter |
| Letters.KelvinSignIsK | main/views.py:45-47 | the Kelvin sign U+212A gives the same result as the letter k |
| Letters.RunOfLettersAccepted | main/views.py:46-49 | because the letter test is a substring test, a run of consecutive letters such as "ab" or "xyz" is accepted with the page of its first letter |
| Letters.EmptyLetterAccepted | main/views.py:46-49 | the empty string passes the letter test and gets page 1 |
| Letters.OutOfOrderRejected | main/views.py:46-47 | "ba", which is not a substring of `LETTERS`, is rejected |
| Categories.MapOf | main/views.py:21-28 | the dict literal built item by item: every item's slug is a key, and the final item's name is at its slug |
| Categories.ReverseOf | main/views.py:29 | the comprehension built item by item: every lowercased name is a key, and the final item's slug is at its lowercased name |
| Categories.MapOfLastWins | main/views.py:21-28 | last wins for every key: an item that no later item with the same slug overrides gives the value at its slug |
| Categories.ReverseOfLastWins | main/views.py:29 | last wins for every key: an item whose lowercased name no later item repeats gives the slug at that name |
| Categories.MapOfKeys | main/views.py:21-28 | every key of the dict comes from one of its items, with that item's value |
| Categories.ReverseOfKeys | main/views.py:29 | every key of the comprehension is the lowercased name of one of the items |
| Categories.FoldsInverse | main/views.py:29 | with distinct slugs and distinct lowercased names, the comprehension `{v.lower(): k}` inverts the dict in both directions |
| Categories.CategoryItemsDistinct | main/views.py:21-28 | the five slugs differ, and so do the five names once lowercased |
| Categories.ReverseMapInverts | main/views.py:21-29 | `REVERSE[MAP[k].lower()] == k` for every slug k, and every key of REVERSE is the lowercased name of the category it maps to |
| Categories.CategoryEntriesNormal | main/views.py:21-28 | every slug is lowercase and every name is non-empty with no surrounding whitespace |
| Categories.CategoryName | main/views.py:102-104 | the page opens only for a slug whose lowercase form is in the map with a non-empty name, and shows that name |
| Categories.KnownSlugFound | main/views.py:102-104 | every slug of the map opens its category page |
| Categories.CategoryNameCaseInsensitive | main/views.py:102 | the slug's case does not matter |
| Categories.DetailCategorySlug | main/views.py:70-80 | a blank category, or one that is unknown after stripping and lowercasing, gives no slug. A slug that is found names a category equal to the article's, up to case and surrounding whitespace |
| Categories.DetailLinksToCategory | main/views.py:74-76 | an article filed under a category's name links to that category's slug |
| Categories.CategoryRoundTrip | main/views.py:74-76 | the category page reached through a slug names a category whose detail link is that slug, lowercased |

## Left out

- The Django ORM and HTTP layer are not modelled. This covers:
  - `get_object_or_404`, `render`, `redirect` and `reverse`;
  - `login_required`;
  - the queryset filters;
  - the random `order_by('?')` list of other articles;
  - pagination;
  - the context dictionaries passed to templates.

  They are framework calls. The model returns what the views compute, and turns a `Http404` into an error value.
- `super().save()` writing the row is left out; `Save` ends where the row would be written. The database is the set `taken` of existing slugs, and the race between looking up and writing a slug between two saves is not modelled.
- Pillow's pixel work is left out. This covers:
  - `Image.open`, modelled as either decoding to a size and an EXIF read or failing;
  - the pixel rotation;
  - resampling;
  - JPEG encoding with `quality=70`.

  An image is its size.
- ImageUpload.IsThumbnailer does not pin down Pillow's exact rounding in `thumbnail`. It states the guarantees: the result fits the box, it is never larger, a fitting image is unchanged, the longer side stays longer, and the aspect ratio is kept within one pixel. `FloorThumbnail` rounds down, while Pillow may round the other way.
- ImageUpload.ProcessAndSaveImage leaves out the filesystem:
  - it does not create the folder;
  - it does not write the file; whether Pillow can encode the image under the upload's name is the input flag `encodes`, not derived from the extension and the image mode;
  - it does not model that a second upload with the same name overwrites the first.

  The path is joined as `article_images/<name>`, and `os.path.join` on an absolute name is not modelled. It also leaves out the EXIF values that are not integers, and the possibility that `exif.get` itself raises.
- Text.Lower maps only the ASCII capitals and the Kelvin sign; Text.Upper maps only the ASCII small letters. Python's full Unicode case mapping is left out, for example `'É'.lower()` and the two-character result of `'İ'.lower()`. The Kelvin sign is the one character outside A–Z whose Python lowercase is a single ASCII letter. Any other non-ASCII character lowercases in Python to a string that contains a non-ASCII character, so it fails `letter in LETTERS` there as it does here.
- Text.Upper maps only the ASCII small letters, not Python's full Unicode upper-casing. letter_view upper-cases a letter only after it has passed the letter test, and such a letter consists of ASCII small letters, so the difference never reaches a page.
- The internals of `slugify` and `unidecode` are left out. They are parameters, so every property holds for any such function.
- `get_template` is modelled as membership in a set of loadable template names.
- The HTML scanning in articles_by_category (BeautifulSoup) and `main/templatetags/article_extras.py` are not part of this model. Both depend on an HTML parser.
- `main/forms.py` and `main/urls.py` are not part of this model. They are declarative configuration.
- The views `index`, `dashboard`, `create_article`, `edit_article`, `delete_article`, `about`, `contact` and `article_list` have no logic of their own beyond the framework calls above. The loop in `create_article` and `edit_article` that calls process_and_save_image once per uploaded file is not modelled either.
- A file that does not decode makes `Image.open` raise, and a failed `img.save` raises too; either exception leaves the view. ImageUpload.ProcessAndSaveImage returns `Err(DecodeError)` or `Err(EncodeError)` instead, and no row is created.
- Blocks.ArticleBlocks takes the article's content as a string. The `content` field is nullable (main/models.py:10), and an Article built in code without content has `None` there; `article.content.split('\n')` then raises `AttributeError`. That `None` content and the crash it causes are not modelled. The site's own form always supplies a string, `''` when the field is left empty (main/forms.py:6).
