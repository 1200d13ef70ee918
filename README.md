# Danbooru downloader: a verified model of its filter, download and cleanup core

This project models, in Dafny, the core of a Danbooru image downloader:

- filtering search results by tags, score and file extension;
- downloading each post's image together with a comma-joined tag file;
- the orchestrator's three download waves (primary, retry and backfill) and its summary message;
- deleting images by tag;
- the corpus cleanups: duplicate removal by image hash and a sweep for corrupted images;
- two tag-file rewrites: escaping parentheses, and filtering tags by their Danbooru category.

Everything the program gets from outside becomes an input:

- **Network.** The catalog API is a function from query to page reply. Each attempt of each image download returns a given reply. The tag API is a function from tag name to lookup reply.
- **Image library and hashing.** `validate_image`, `calculate_hash` and the decode check of `is_image_corrupted` are functions of a file's content.
- **Clock.** The timestamp of each download is given.
- **Filesystem.** A directory is a value, `Dir = map<string, string>` from file name to content. Every operation takes a directory and returns the new one. Directory listings are a parameter related to the directory by `Files.IsListing`: distinct names, exactly the directory's files. Their order is arbitrary.

Modules, one per concern:

| file | module | models |
|---|---|---|
| wrappers.dfy | `Wrappers` | `Option` |
| text.dfy | `Text` | `split`, `join`, `strip`, `str.split()`, `replace`, `splitext`, `PurePath.stem`, decimal rendering |
| order.dfy | `Order` | string order, `sorted`, distinctness |
| files.dfy | `Files` | directories, listings, `os.listdir` |
| catalog.dfy | `Catalog` | `is_valid_post`, `fetch_posts` |
| download.dfy | `Download` | `download_image` |
| pipeline.dfy | `Pipeline` | `download_and_preview` |
| tagdelete.dfy | `TagDelete` | `delete_images_by_tag` |
| dedup.dfy | `Dedup` | del_img.py |
| sweep.dfy | `Sweep` | check_img.py |
| escape.dfy | `Escape` | cheak_kuohao.py |
| tagcategory.dfy | `TagCategory` | check_tag.py |

The loops of the source are Dafny methods with loop invariants:

- the attempt loop of `download_image`;
- the page-collection `while` loop;
- the settle loop of each wave;
- each cleanup loop;
- the index loop of `escape_parentheses`;
- the dictionary and write-back loops of check_tag.py.

Each such method is proved equal to a specification function, and lemmas state what that function does.

The model follows the code as written. That code departs in places from what a reader would expect:

- **Positional pairing.** In each wave `zip(posts, results)` pairs posts with results by position. The task list skips already-downloaded ids, so a result can be paired with the wrong post (`Pipeline.ShiftedPairing`).
- **Re-counted failures.** A post that fails again in the retry or backfill wave is appended to `failed_posts` again and counted again.
- **Backfill.** It draws only from `all_posts[limit:]` and never fetches new pages.
- **Empty image left behind.** A 200 response whose body cannot be read leaves an empty image file, because `open(filename, 'wb')` runs before the read.
- **Crash.** A result naming a file that no longer exists makes `os.remove` raise. It can happen, for instance, when two downloads in one wave share an id and a timestamp. `Pipeline.Outcome.Crashed` models that exception.
- **The final truncation** `images[:limit]` never removes anything (`Pipeline.WavesBounds`).
- **The downloaded count** in the summary, `len(images) - deleted_images_count`, can be negative. The duplicate count covers every hashable image in the directory, including files left by earlier runs.
- **Bare ".txt" file.** check_tag.py writes back each file as `stem + ".txt"`. A file named exactly `.txt` has the stem `.txt`, so it is written to `.txt.txt`. `TagCategory.RewrittenInPlace` therefore requires a name longer than four characters.

## Model

| member | source | states |
|---|---|---|
| Catalog.IsValidPostIff | DanbooruDownload_Tool.py:99-115 | A post is valid iff all four hold: the comma-split required tags are absent or all among the whitespace tokens; no excluded tag is among them; the score, 0 when missing, reaches the threshold; the lower-cased extension, "" when missing, is jpg, jpeg, png or gif. |
| Catalog.EmptyRequiredFieldRejects | DanbooruDownload_Tool.py:101-111 | An empty field in the required list, as in "1girl,", rejects every post, because whitespace tokens are never empty. |
| Catalog.SearchQuery | DanbooruDownload_Tool.py:63-70 | The query asks for 200 posts of the given page, with the threshold as score. Its tags are the input with each ',' replaced by ' ', the same length and without commas. |
| Catalog.FilterPostsSpec | DanbooruDownload_Tool.py:77-78 | The filtered list is exactly the posts with a file URL that pass `is_valid_post`, in original order: the posts at a strictly increasing index sequence that holds precisely the indices of the wanted posts. |
| Catalog.FilterPostsMembers | DanbooruDownload_Tool.py:89-90 | A post is in the filtered list iff it is in the page and is wanted. The filtered list is no longer than the page. |
| Catalog.FetchPostsSound | DanbooruDownload_Tool.py:75-96 | A non-200 reply yields []. On 200 the result holds exactly the posts of the reply that have a file URL and are valid. |
| Download.FileNamesPaired | DanbooruDownload_Tool.py:139-141 | Image and tag file share the base `{id}_{ts}`, with ".jpg" and ".txt". `.replace('.jpg', '.txt')` maps the image name to the tag name. |
| Download.TagFileExample | DanbooruDownload_Tool.py:153 | The tag file of "1girl solo long_hair" is "1girl,solo,long_hair". |
| Download.TagFileRoundTrip | DanbooruDownload_Tool.py:167 | When no token contains ',', splitting the tag file on ',' gives back the whitespace tokens of the tag string. |
| Download.FirstSuccess | DanbooruDownload_Tool.py:143-155 | It is the first attempt from `k` to `max_retries` whose reply is a 200 with a readable body, and every earlier attempt in that range failed. |
| Download.DownloadImage | DanbooruDownload_Tool.py:135-179 | The attempt loop and its writes match `Download.Fetch`. One sleep follows each attempt but the last. |
| Download.FetchSpec | DanbooruDownload_Tool.py:143-179 | 1 to `max_retries + 1` attempts are made. A result is returned iff some attempt succeeds. The first success returns `(filename, tags)` and writes the image and the tag file. After `max_retries + 1` failures the result is `(None, None)`. The directory is then unchanged, except for the empty image left by a 200 whose body could not be read. |
| Pipeline.CollectPosts | DanbooruDownload_Tool.py:196-206 | The `while` loop computes `Pipeline.Collect` from page 1. |
| Pipeline.CollectShape | DanbooruDownload_Tool.py:196-206 | The collected posts are pages `page, page+1, …, page+n-1` concatenated. Each of those pages was non-empty and requested while fewer than `limit` posts were held. Collection stops at `limit` or more posts, or at the first empty page. |
| Pipeline.TasksOfNoIds | DanbooruDownload_Tool.py:222-223 | With no downloaded ids, the primary wave's task list is all its posts. |
| Pipeline.TasksOfMembers | DanbooruDownload_Tool.py:241-242 | A post is a task iff it is among the wave's posts and its id is not downloaded. |
| Pipeline.ShiftedPairing | DanbooruDownload_Tool.py:241-249 | When the first of two posts is already downloaded and the second is not, the only task is the second. Its result, which names the second post's image, is settled as the first post's. |
| Pipeline.GatherWave | DanbooruDownload_Tool.py:222-224 | The tasks are downloaded in order, one `Download.Fetch` each, threading the directory. |
| Pipeline.GatherResults | DanbooruDownload_Tool.py:222-224 | The `k`-th result is `(None, None)` or names the `k`-th task's image, with that task's tags. |
| Pipeline.SettleWave | DanbooruDownload_Tool.py:225-238 | The settle loop computes `Pipeline.Settle` over the `min` of the numbers of posts and results, as `zip` does. |
| Pipeline.Settle1Outcome | DanbooruDownload_Tool.py:225-238 | A pair is accepted iff its result names an image that `validate_image` accepts. Acceptance appends the image, its tags and the id, and leaves failures and files alone. Rejection appends the post to `failed_posts` and keeps the ids. A rejected existing image is deleted together with its `.txt` file. A result naming a missing file raises. |
| Pipeline.RejectedPairRemoved | DanbooruDownload_Tool.py:231-237 | A downloaded image that fails validation leaves neither its image nor its tag file behind, and its post is recorded as failed. |
| Pipeline.SettleConsistent | DanbooruDownload_Tool.py:225-258 | Settling keeps `total_failed_count == len(failed_posts)` and `len(tags_list) == len(images)`, and invalid counts never exceed failures. |
| Pipeline.SettleGrowth | DanbooruDownload_Tool.py:225-279 | Each settled pair adds exactly one image or one failure, unless it raised. `re_downloaded_count` grows by the new images outside the primary wave. Only the primary wave counts initial invalid images, and only the others count final ones. |
| Pipeline.SettleAccepted | DanbooruDownload_Tool.py:226-229 | Every image accepted by a wave came from some result that passed `validate_image` on the directory at the moment it was settled. |
| Pipeline.RunWaveMethod | DanbooruDownload_Tool.py:222-238 | One wave computes `Pipeline.RunWave`. |
| Pipeline.Take | DanbooruDownload_Tool.py:281-282 | `s[:n]` is the prefix of length `min(len(s), n)`. |
| Pipeline.Slice | DanbooruDownload_Tool.py:261 | `s[lo:hi]` has at most `hi - lo` elements. When `lo <= hi` and `lo <= len(s)` it is `s[lo:min(hi, len(s))]`. |
| Pipeline.RunWaves | DanbooruDownload_Tool.py:221-282 | The primary, retry and backfill waves and the truncation compute `Pipeline.Waves`. |
| Pipeline.WaveGrowth | DanbooruDownload_Tool.py:222-279 | A wave only adds images and failures, at most one per post. It keeps the counters consistent and follows the re-download and invalid-count rules. |
| Pipeline.PrimaryBounds | DanbooruDownload_Tool.py:222-238 | After the primary wave, images and failures together number at most `limit`, and nothing is counted as re-downloaded. |
| Pipeline.RetryBounds | DanbooruDownload_Tool.py:239-258 | The retry wave adds at most one image per previously failed post, counts each as re-downloaded, and leaves the initial invalid count alone. |
| Pipeline.BackfillBounds | DanbooruDownload_Tool.py:259-279 | The backfill wave never takes the image count past `limit`, counts its successes as re-downloaded, and leaves the initial invalid count alone. |
| Pipeline.WavesBounds | DanbooruDownload_Tool.py:221-282 | After the three waves there are at most `limit` images, so the truncation changes nothing. `re_downloaded_count` is the number of images past those of the primary wave. The initial invalid count is the primary wave's. The counters are consistent. |
| Pipeline.Message | DanbooruDownload_Tool.py:294-297 | Each of the three messages is non-empty, and its first character tells which one it is. The counts it reports are stated by `Pipeline.FinishCounts`. |
| Pipeline.FinishWaves | DanbooruDownload_Tool.py:284-297 | The cleanup and message step computes `Pipeline.Finish`. |
| Pipeline.DownloadAndPreview | DanbooruDownload_Tool.py:192-297 | `download_and_preview` computes `Pipeline.Pipeline`. When it returns, the message is the one for its report. |
| Pipeline.PipelineNoPosts | DanbooruDownload_Tool.py:207-209 | The "未找到符合条件的图片。" message comes back iff collection found no posts. Then nothing was downloaded and the directory is unchanged. |
| Pipeline.PipelineImages | DanbooruDownload_Tool.py:281-297 | The returned images and tag strings have equal length, at most `limit`. That each returned image passed `validate_image` is `Pipeline.PipelineImagesValidated`. |
| Pipeline.RunWaveAccepted | DanbooruDownload_Tool.py:224-229 | Every image a wave adds came from the `k`-th result of that wave's downloads, which named it, and `validate_image` accepted it on the directory as it was when that pair was settled. |
| Pipeline.WavesPrefix | DanbooruDownload_Tool.py:239-279 | The retry and backfill waves keep the images of the waves before them, in place. |
| Pipeline.WavesAccepted | DanbooruDownload_Tool.py:222-279 | Every image kept after the three waves was accepted in a wave whose guard held, from a result that passed `validate_image` when its pair was settled. |
| Pipeline.PipelineImagesValidated | DanbooruDownload_Tool.py:226-282 | Every image `download_and_preview` returns passed `validate_image`: it was accepted in the primary wave, or in a retry or backfill wave whose guard held, from a result of that wave's downloads that named it, on the directory as it was when that pair was settled. |
| Pipeline.FinishCounts | DanbooruDownload_Tool.py:284-294 | With images, the summary reports `len(images)` minus the duplicates, the failure count, the initial invalid count, the final invalid count plus the corrupted images swept, the re-download count and a duplicate count. That duplicate count is the number of hashable images minus the number of distinct hashes. |
| TagDelete.ImageOfNotTxt | DanbooruDownload_Tool.py:316 | The image named after a tag file is never itself a `.txt` file. |
| TagDelete.DeleteImagesByTag | DanbooruDownload_Tool.py:307-344 | The nested loop computes `TagDelete.DeleteAll` and reports its count in the returned message. |
| TagDelete.DeleteResult | DanbooruDownload_Tool.py:309-344 | Only deletions happen. A `.txt` file is removed iff its stripped, comma-split content holds the tag. Any other file is removed iff it is the `.jpg` of such a tag file. The count is the number of matching tag files, whether or not their image exists. |
| TagDelete.RunNoMatch | DanbooruDownload_Tool.py:311-315 | With no matching tag file, nothing is deleted and nothing is counted. |
| TagDelete.DeleteIdempotent | DanbooruDownload_Tool.py:307-344 | A second deletion by the same tag removes nothing and counts 0. |
| Dedup.SiblingIsNotImage | del_img.py:52 | The sibling `.txt` of any name is never an image name. |
| Dedup.RemoveDuplicates | del_img.py:27-61 | The loop computes `Dedup.Dedup` over the sorted listing, and returns its deleted count and message. |
| Dedup.DedupKeepsFirst | del_img.py:34-58 | In sorted order, a hashable image survives iff no earlier hashable image has its hash. A removed duplicate's sibling `.txt` is gone too. |
| Dedup.DedupOnlyRemoves | del_img.py:38-55 | Only deletions happen. An unhashable image is kept. A removed non-image file is the sibling `.txt` of a removed duplicate. |
| Dedup.DedupCounts | del_img.py:49-61 | `kept_count` is the number of distinct hashes, and `deleted_count + kept_count` is the number of hashable image files. |
| Dedup.DedupDistinct | del_img.py:45-58 | Afterwards the hashable images have pairwise distinct hashes. |
| Dedup.DedupIdempotent | del_img.py:27-61 | A second run, over any listing, deletes nothing and changes nothing. |
| Sweep.SiblingNotCandidate | check_img.py:24-32 | A sibling `.txt` is never swept as an image. |
| Sweep.RemoveCorrupted | check_img.py:19-37 | The loop computes `Sweep.SweepAll`: the new directory and `deleted_count`. |
| Sweep.SweepResult | check_img.py:5-37 | Only deletions happen. A candidate by extension is removed iff it is corrupted. Any other file is removed iff it is the sibling `.txt` of a removed image. The count is the number of corrupted images, without the `.txt` removals. |
| Sweep.RunClean | check_img.py:21-37 | With no corrupted image, the sweep changes nothing and counts 0. |
| Sweep.SweepIdempotent | check_img.py:21-37 | After a sweep no corrupted image remains, and a second sweep changes nothing and returns 0. |
| Escape.EscapeParentheses | cheak_kuohao.py:4-15 | The index loop computes `Escape.Escaped`. |
| Escape.EscapedLength | cheak_kuohao.py:7-15 | The output is longer than the input by the number of parentheses that get a backslash. |
| Escape.CopiedInOrder | cheak_kuohao.py:8-13 | Every input character appears in the output, in order, at its index plus the number of insertions so far. A parenthesis at index 0, or one not after '\', is preceded there by an inserted '\'. |
| Escape.EscapedAllEscaped | cheak_kuohao.py:8-13 | Every '(' and ')' of the output is immediately preceded by '\'. |
| Escape.NothingToEscape | cheak_kuohao.py:8-13 | When no parenthesis needs a backslash, the output equals the input. |
| Escape.FixedPoints | cheak_kuohao.py:4-15 | Escaping leaves a text unchanged iff all its parentheses are already escaped. |
| Escape.Idempotent | cheak_kuohao.py:4-15 | Escaping twice is escaping once. |
| Escape.ProcessFiles | cheak_kuohao.py:18-38 | Every listed `.txt` file ends up escaped and every other file is unchanged. A file is written back iff escaping changes it. |
| Escape.ProcessIdempotent | cheak_kuohao.py:18-38 | A second pass changes nothing and writes no file. |
| TagCategory.GetCategory | check_tag.py:21-39 | A category is found only in a non-empty JSON list, and it is the first record's. A failed request, bad JSON or an empty list yields None. |
| TagCategory.ProcessElement | check_tag.py:67-74 | A tag is dropped iff its category is 3 or 5. Category 1 gets the "artist:" prefix. Any other value, None included, keeps the tag unchanged. |
| TagCategory.LookupFailureKeeps | check_tag.py:26-39 | A failed lookup or an empty result keeps the tag. |
| TagCategory.FilterElements | check_tag.py:77-85 | The loop over the completed futures computes `TagCategory.Kept` of the completion order. |
| TagCategory.KeptAppend | check_tag.py:82-85 | Filtering distributes over concatenation. |
| TagCategory.FilteredIsPermutation | check_tag.py:80-85 | Whatever order the lookups complete in, the result is a permutation of the results in input order. |
| TagCategory.KeptLength | check_tag.py:77-85 | The result is as long as the input minus the dropped tags, so never longer. |
| TagCategory.KeptMembers | check_tag.py:77-85 | A string is in the result iff some input tag produces it. |
| TagCategory.Parse | check_tag.py:53 | One element per comma-separated field, so at least one. |
| TagCategory.ParseClean | check_tag.py:53 | Parsed elements are stripped and contain no comma. |
| TagCategory.ParseJoin | check_tag.py:53 | Parsing the comma-join of stripped, comma-free tags gives them back. |
| TagCategory.KeptClean | check_tag.py:70-74 | Filtering stripped, comma-free tags yields stripped, comma-free tags. |
| TagCategory.ReadBack | check_tag.py:88-90 | A file written back, when not empty, parses to exactly the filtered list. |
| TagCategory.TxtFilesToDict | check_tag.py:42-56 | The loop computes `TagCategory.DictUpTo` over the listing. |
| TagCategory.DictKeys | check_tag.py:51-54 | The keys are exactly the stems of the listed `.txt` files. |
| TagCategory.DictValue | check_tag.py:51-54 | A stem maps to the parse of the last listed `.txt` file with that stem. |
| TagCategory.FilterAndSaveTags | check_tag.py:59-90 | The loop over the dictionary computes `TagCategory.SaveUpTo`. |
| TagCategory.SaveKeys | check_tag.py:88-90 | Afterwards the directory holds the original files plus one `{key}.txt` per key. |
| TagCategory.SaveWritten | check_tag.py:88-90 | `{key}.txt` holds the comma-join of its filtered tags. |
| TagCategory.SaveUnchanged | check_tag.py:88-90 | Every other file keeps its content. |
| TagCategory.RewrittenInPlace | check_tag.py:42-90 | After both steps, each `.txt` file (of a name longer than ".txt", whose stem no later file shares) holds the filtered tags of its own parsed content, as a permutation. |
| Text.SplitJoin | check_tag.py:53 | Splitting the join of separator-free fields gives them back. |
| Text.TokensJoin | DanbooruDownload_Tool.py:100 | The whitespace tokens of a space-join of non-empty, space-free words are those words. |
| Text.StripChars | check_tag.py:53 | Stripping introduces no character. |
| Text.TxtStem | check_tag.py:54 | The stem of a name ending in ".txt", longer than four characters, is the name without ".txt". |
| Text.SplitExt | del_img.py:52 | `os.path.splitext` splits the name into stem and extension, and the extension is empty or a dot with no further dot. |
| Order.SortSpec | del_img.py:34 | `sorted` yields an ordered permutation. |
| Files.SortedListing | del_img.py:34 | The sorted listing is again a listing of the directory, now ordered. |

## Left out

- The network, the image library (`Image.open`, `verify`, `load`, the grayscale resize and MD5), the clock and `os.listdir`'s order are inputs, as described above. `fetch_posts_cached` is the plain pass-through to `fetch_posts` and is not modelled separately.
- `asyncio.gather` and the semaphore are modelled sequentially: the downloads of a wave run one after another in task order, then the results are settled. Concurrent downloads of one wave would interleave their writes, and the model does not capture that.
- The `ThreadPoolExecutor` run of `process_element` is modelled by its completion order, which is any permutation of the tags (`TagCategory.IsCompletionOrder`).
- Directories are flat. `os.walk` into subdirectories is not modelled, and file paths are file names. `os.makedirs` and `os.path.isfile` reduce to membership in the directory.
- File contents are text. `'wb'` bytes and UTF-8 decoding are not modelled: every file of a directory reads successfully. The `except` branch of `process_files_in_directory` is taken only for a listed name that is not in the directory.
- File contents are the raw characters that were written. Python's text-mode reads and writes translate line endings ("\r\n" and "\r" become "\n" on reading) in `process_files_in_directory`, `txt_files_to_dict` and `delete_images_by_tag`; the model does not, so for a file with "\r\n" line endings `Escape.ProcessFiles` keeps the "\r" that the original drops.
- The retries in `delete_images_by_tag` after a `PermissionError` are left out: file removal always succeeds.
- Exceptions other than the ones the source catches are not modelled. An exception outside the four network errors in `download_image` would propagate. So would a PIL error outside `IOError`, `SyntaxError` and `AttributeError` in `is_image_corrupted`.
- Logging, progress bars and `print` are left out. So are the configuration file and `update_config`, the Gradio interface with `prepare_gallery`, the proxy URL and the `__main__` blocks.
- `limit` is an integer input rather than the result of `int(limit)` on a form field.
- `lru_cache` on `get_category` is modelled by the tag API being a function, so repeated lookups of a tag agree.
- Download.DownloadImage: the timeout, and the length of the one-second sleeps, are not modelled; only the number of sleeps is.
- Lower: only ASCII letters are lower-cased. That covers the fixed extension lists compared against.
