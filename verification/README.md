# Verified model of the YRL feed parser and of the list, BSON stream and libbson code it ships

The repository reads feeds in the Yandex Realty Language, turns each `offer` element into a BSON document and
stores it. This project models the parts with the most involved state and proves what they are for.

**Intrusive lists** (`utlist.h`). `MergeSpec` defines the bottom-up merge sort on sequences and proves it sorted,
stable, loss-free, uniquely determined by that, and bounded in passes and comparisons. `UtList` describes linked
nodes on the heap. `UtSort` proves that the relinking loops of the three sort macros compute `MergeSpec.MergeSort`
in place; the macros are one text with two switches (`prev` is written or not, the old head or NULL ends the list), so
they are proved together. `SinglyLinked`, `DoublyLinked` and `CircularLinked` hold the other operations, each proved
to refine a sequence operation with a frame that names the few nodes it touches. Comparison functions take nodes; a
total preorder is asked for only on the nodes of the list, and only where sortedness is claimed.

**From SAX events to stored documents** (`feed/`). `Feed` is the handlers' state machine on values, `FeedExact`
compares the trees it hands over with a definition that walks the XML content, `FeedDocument` does the same for the
documents that come of them, and `FeedDepth` follows the path to the current node. `OfferNodes` and `SaxParser` are the
handlers on the heap, with strong child links and parent links back; they refine `Feed.Step`. `OfferDocument` and
`OfferParsers` are the filter and emitter, as functions and on the heap, and `OfferFields` says outright which key and
value stands at each place of a document, and which node an exception is about. `SaxParser.Parser.ParseFeed` puts all of
it together. `Workers` interleaves the threads that share one `offer_parser`, and `Application` joins their runs with
what the feeds say.

**Stream contexts** (`bsoncxx/builder/stream`). `Bson` reads a log of core operations as a pushdown machine and
`StreamContext` has the contexts' types as values.

**libbson arithmetic**. `LibBson` has ObjectId order against time, the hash, hexadecimal, byte swaps and powers of two.

## What turned out not to hold

**The text of an element is what is left of it.** `on_characters` replaces the text that the current node has
(feed/parser.cpp:64-70), and a SAX parser may report one text in several chunks, as it does around entities. So a
description reported as "a" and "b" is stored as "b" (`FeedDocument.DescriptionInTwoChunks`), and a sale whose `type` is
reported in two chunks is rejected (`FeedDocument.SaleInTwoChunks`). An element keeps its text exactly when the text
comes last and in one piece: each of its own chunks but the last is empty and no dropped image has text behind it, or
the last text behind it happens to be the same (`FeedExact.TextExact`).

**Not every feed is handed over as it should be.** `FeedExact.FeedExactly` says exactly which feeds lead to the wanted
trees: no offer is inside an offer, and in each offer (1) the first image in document order has no image inside,
(2) images that are to be dropped have no other elements inside, and (3) every element that stays keeps its text, as
above. Images as the feed format has them, leaves directly under the offer, meet all three if each text is reported
in one piece (`LeafImagesAreClean`). For a violation of each condition there is a feed and what comes out for it.

**For the documents, less is needed.** Only the text of an element that becomes a value is stored, and the filters look
at the `type` elements and at each `category` directly below the offer. `FeedDocument.DocumentsExactlyForAll` says
exactly which feeds lead to the wanted documents whatever the conversions and the filters are: (1) and (2) as above,
(3) in the elements that become values, and the last reported texts pass each filter if and only if the whole texts do.
`FeedDocument.DocumentsExactly` says it for given conversions and filters, again as a condition on the content, and is
what `SaxParser.Parser.ParseFeed` and `Application.CollectionAfterTheRun` build on.

**Nested images can hide a category from its filter.** An image with an image inside is never left, so what follows goes into
it: a `category` directly below the offer ends up below the image, where the filter does not look, and an offer that is
to be rejected is stored (`FeedDocument.CategoryInOpenImage`). `FeedDocument.PassesInTheEnd` tells from the content,
for however nested images, which offers pass.

**The order of operands in `try_add`.** C++11 leaves open whether the conversion or appending the key comes first
(feed/offer_parser.cpp:27). `OfferParsers.TryAddInt` and `TryAddDouble` cover both orders; a leaf works exactly if the
conversion comes first or its text is an int (`OfferDocument.LeafExact`), so the walk is taken with that order.

## Model

| member | source | states |
|---|---|---|
| MergeSpec.MergeKeepsElements | feed/3pp/include/libmongoc-1.0/utlist.h:133-153 | a merge loses no node and takes none twice, whatever cmp answers |
| MergeSpec.SortedMerge | feed/3pp/include/libmongoc-1.0/utlist.h:133-153 | sorted runs merge into a sorted run |
| MergeSpec.StableMerge | feed/3pp/include/libmongoc-1.0/utlist.h:140-143 | because a tie takes the left run, equals keep their order |
| MergeSpec.MergesIsCeiling | feed/3pp/include/libmongoc-1.0/utlist.h:123-124 | the merge count of a pass is the ceiling of n / 2k |
| MergeSpec.PassDoublesRuns | feed/3pp/include/libmongoc-1.0/utlist.h:118-155 | a pass turns sorted runs of length k into sorted runs of length 2k |
| MergeSpec.PassIsStable | feed/3pp/include/libmongoc-1.0/utlist.h:118-155 | a pass keeps the order of equals |
| MergeSpec.SortKeepsElements | feed/3pp/include/libmongoc-1.0/utlist.h:118-163 | the loop that stops on the merge count ends with exactly the original nodes |
| MergeSpec.MergeSortCorrect | feed/3pp/include/libmongoc-1.0/utlist.h:108-165 | for every total preorder the result is the stable sorted rearrangement |
| MergeSpec.StableSortIsUnique | feed/3pp/include/libmongoc-1.0/utlist.h:108-165 | that promise fixes the list, so the three macros agree with each other |
| MergeSpec.PassCount | feed/3pp/include/libmongoc-1.0/utlist.h:118-162 | there are exactly max(1, ceil(log2 n)) passes |
| MergeSpec.RunLengthFitsInt | feed/3pp/include/libmongoc-1.0/utlist.h:162 | doubling insize stays within a 32-bit int if and only if n is at most 2^30 |
| MergeSpec.ComparisonBound | feed/3pp/include/libmongoc-1.0/utlist.h:59 | the O(n log n) of the header: at most (n - 1) * ceil(log2 n) calls of cmp |
| UtSort.SkipRun | feed/3pp/include/libmongoc-1.0/utlist.h:255-265 | the walk to the second run counts min(insize, rest) nodes and ends on the next run's head or NULL |
| UtSort.TakeNext | feed/3pp/include/libmongoc-1.0/utlist.h:268-284 | each choice continues the merge of the two remaining runs, never reading past the old tail |
| UtSort.Link | feed/3pp/include/libmongoc-1.0/utlist.h:285-291 | relinking extends the output and leaves the nodes still to be read linked as they were |
| UtSort.MergeRuns | feed/3pp/include/libmongoc-1.0/utlist.h:267-292 | the inner loop appends exactly the merge of the two runs, with the exact number of comparisons |
| UtSort.SortPass | feed/3pp/include/libmongoc-1.0/utlist.h:246-297 | one trip of the outer loop yields a valid list holding the pass over the old one |
| UtSort.Sort | feed/3pp/include/libmongoc-1.0/utlist.h:108-304 | all three macros: a valid list of the right kind through the stable sort, with pass count, comparison count and final insize; LL_SORT writes no prev |
| UtList.AroundFirst | feed/3pp/include/libmongoc-1.0/utlist.h:352-366 | deletion takes out, replacement puts in place of and insertion puts before exactly the first occurrence, and without one the list stays as it is |
| UtList.DLMeans | feed/3pp/include/libmongoc-1.0/utlist.h:507-517 | in words, head->prev is the tail, tail->next is NULL, and next and prev of neighbours are each other's inverse |
| UtList.CDLMeans | feed/3pp/include/libmongoc-1.0/utlist.h:651-663 | the same for a ring, closed in both directions |
| SinglyLinked.LLList.Prepend | feed/3pp/include/libmongoc-1.0/utlist.h:312-316 | the list becomes add followed by the old list |
| SinglyLinked.LLList.Append | feed/3pp/include/libmongoc-1.0/utlist.h:336-347 | the list becomes the old list followed by add; only the old tail is relinked |
| SinglyLinked.LLList.Concat | feed/3pp/include/libmongoc-1.0/utlist.h:321-331 | disjoint lists are concatenated and the second stays a list |
| SinglyLinked.LLList.Delete | feed/3pp/include/libmongoc-1.0/utlist.h:352-366 | del is removed if it is there, else the list stays as it was |
| SinglyLinked.LLList.ReplaceElem | feed/3pp/include/libmongoc-1.0/utlist.h:460-478 | el is replaced if it is there, else the list stays as it was |
| SinglyLinked.LLList.PrependElem | feed/3pp/include/libmongoc-1.0/utlist.h:480-498 | add comes to stand before el if el is there, else the list stays as it was |
| SinglyLinked.LLList.Foreach | feed/3pp/include/libmongoc-1.0/utlist.h:422-432 | every element is visited once, in order |
| SinglyLinked.LLList.Sort | feed/3pp/include/libmongoc-1.0/utlist.h:108-165 | LL_SORT on a head pointer |
| DoublyLinked.DLList.Prepend | feed/3pp/include/libmongoc-1.0/utlist.h:507-517 | keeps head->prev the tail and tail->next NULL; only the head's prev and add are written |
| DoublyLinked.DLList.Append | feed/3pp/include/libmongoc-1.0/utlist.h:522-534 | likewise at the end, in constant footprint |
| DoublyLinked.DLList.Concat | feed/3pp/include/libmongoc-1.0/utlist.h:539-552 | disjoint lists are concatenated; the second head pointer is left alone |
| DoublyLinked.DLList.Delete | feed/3pp/include/libmongoc-1.0/utlist.h:557-573 | del is removed; its neighbours, the head's prev and the head pointer are all that is written |
| DoublyLinked.DLList.ReplaceElem | feed/3pp/include/libmongoc-1.0/utlist.h:603-627 | add takes the place of el |
| DoublyLinked.DLList.PrependElem | feed/3pp/include/libmongoc-1.0/utlist.h:629-642 | add comes to stand before el |
| DoublyLinked.DLList.DoAndUndo | feed/3pp/include/libmongoc-1.0/utlist.h:507-642 | deleting what has just been put in, or replacing back, restores the head and every link of the list |
| DoublyLinked.Run | feed/3pp/include/libmongoc-1.0/utlist.h:507-642 | however many heads there are and whatever macros are run on them, DL_CONCAT from any one to any other included: every head that has not been concatenated away leads to a valid DL list, which holds what the sequence operations say |
| DoublyLinked.DLList.Sort | feed/3pp/include/libmongoc-1.0/utlist.h:171-228 | DL_SORT restores the whole DL invariant on the sequence LL_SORT yields |
| CircularLinked.CDLList.Prepend | feed/3pp/include/libmongoc-1.0/utlist.h:651-663 | the ring gets add as its new head |
| CircularLinked.CDLList.Delete | feed/3pp/include/libmongoc-1.0/utlist.h:668-677 | the ring closes around del |
| CircularLinked.CDLList.ReplaceElem | feed/3pp/include/libmongoc-1.0/utlist.h:722-740 | add takes the place of el in the ring |
| CircularLinked.CDLList.PrependElem | feed/3pp/include/libmongoc-1.0/utlist.h:742-754 | add comes to stand before el, as the new head if el was the head |
| CircularLinked.CDLList.Foreach | feed/3pp/include/libmongoc-1.0/utlist.h:682-692 | goes round exactly once |
| CircularLinked.CDLList.ForeachSafe | feed/3pp/include/libmongoc-1.0/utlist.h:697-700 | visits every original node once and ends, whichever nodes the body deletes as they come up |
| CircularLinked.CDLList.Sort | feed/3pp/include/libmongoc-1.0/utlist.h:233-304 | CDL_SORT ends with a ring through the stable sort |
| Feed.ContentFills | feed/parser.cpp:39-70 | inside an offer, whatever content without inner offers comes and however its images are nested, the handlers do to the open nodes what a recursion over the content says |
| Feed.FlatFills | feed/parser.cpp:39-70 | with the first image flat they add exactly the children and the text of a recursion that knows no path, and come back to the node they started from |
| Feed.AfterElem | feed/parser.cpp:16-62 | the events of an element are its start, its content and its end |
| FeedExact.ContentGrows | feed/parser.cpp:39-61 | for any images, content ends at or below the node it started from, and every element adds its node |
| FeedExact.TextExact | feed/parser.cpp:64-70 | a node is left with its element's own text if and only if that text comes last and in one piece |
| FeedExact.FirstChildren | feed/parser.cpp:19-37 | whatever is in an offer, its tree begins with the first internal-id attribute, if there is one, the feed id under feed_id and the time under last_modified |
| FeedExact.OfferExact | feed/parser.cpp:19-70 | an offer comes out with its identification, feed_id, last_modified and XML children with their whole texts, later images removed and nothing else changed, if and only if its content is clean |
| FeedExact.OneCallbackEach | feed/parser.cpp:48-54 | each offer element leads to one callback, however offers are nested, and never without a root |
| FeedExact.OffersAreIndependent | feed/parser.cpp:50-54 | the image flag and the tree of one offer do not reach the next |
| FeedExact.FeedExactly | feed/parser.cpp:16-79 | the wanted trees are handed over in document order if and only if no offer is nested and all are clean |
| FeedExact.LeafImagesAreClean | feed/parser.cpp:40-70 | images that are leaves directly under the offer, with texts in one piece, are clean |
| FeedExact.ImageInImage | feed/parser.cpp:56-60 | an image in the first image: the outer one is popped once too few and takes in what follows it |
| FeedExact.ElementInDroppedImage | feed/parser.cpp:40 | an element in a dropped image becomes a child of the offer |
| FeedExact.TextInDroppedImage | feed/parser.cpp:64-70 | a dropped image's text stands in its parent instead of the parent's own |
| FeedExact.TextInTwoChunks | feed/parser.cpp:64-70 | of a text in two chunks the node holds the second |
| FeedExact.OfferInOffer | feed/parser.cpp:50-54 | a nested offer makes two callbacks, both with the inner offer, where one was wanted |
| FeedDocument.DeliveredIsFiltered | feed/offer_parser.cpp:42-50 | of the tree of any offer without inner offers, the type filter sees the types at every depth and the category filter exactly the categories directly below the root |
| FeedDocument.DeliveredPassesInTheEnd | feed/offer_parser.cpp:42-50 | whether the tree of any offer passes is told from the content: from what name and text each node has when it is left, or when the offer ends |
| FeedDocument.FlatPasses | feed/offer_parser.cpp:42-50 | with the first image flat that is what is reported last in each element |
| FeedDocument.SameDocument | feed/offer_parser.cpp:52-75 | filters aside, an offer's document is the wanted one if and only if its first image is flat, its dropped images are bare, and every element that becomes a value has the same value |
| FeedDocument.DocumentExact | feed/offer_parser.cpp:35-75 | for given conversions and filters an offer is stored, or rejected, as it should be if and only if its content is right for them |
| FeedDocument.DocumentExactForAll | feed/offer_parser.cpp:35-75 | it is for all conversions and filters if and only if its content is interchangeable |
| FeedDocument.DocumentsExactly | feed/parser.cpp:16-79 | a feed's offers amount, one by one, to what they should if and only if none is nested and each is right |
| FeedDocument.DocumentsExactlyForAll | feed/parser.cpp:16-79 | the same for all conversions and filters at once, with a condition on the content alone |
| FeedDocument.DescriptionInTwoChunks | feed/parser.cpp:64-70 | a description in two chunks is stored as the second chunk |
| FeedDocument.SaleInTwoChunks | feed/offer_parser.cpp:42-45 | a sale whose type comes in two chunks is rejected |
| FeedDocument.CategoryInOpenImage | feed/parser.cpp:56-60 | a category of the wrong kind behind an image with an image inside is stored, in that image, under both filters |
| FeedDocument.TextThatGoesNowhere | feed/offer_parser.cpp:52-64 | an offer that is not clean can still lead to the right document under all options |
| FeedDepth.PathFollowsTags | feed/parser.cpp:39-61 | over events whose tags match, the path to the current node has at least one node more than there are open tags other than dropped images, and exactly one more if the first image is flat |
| FeedDepth.ContentIsInOrder | feed/parser.cpp:39-61 | the events of any offer's content are such events, and close every tag they open |
| FeedDepth.DepthInsideOffer | feed/parser.cpp:39-61 | so after any number of events inside any offer there is a current node, at least at that depth, and at it if the first image is flat |
| OfferNodes.OfferNode.AddChild | feed/offer_node.cpp:6-10 | the child is last in the list and links back |
| SaxParser.Parser.AddOfferChild | feed/parser.cpp:72-79 | the root gets one more leaf and the links stay a tree |
| SaxParser.Parser.OnStartElement | feed/parser.cpp:16-46 | the heap goes on to represent the state after a start tag; a new offer has internal-id, feed_id and last_modified with their texts |
| SaxParser.Parser.OnEndElement | feed/parser.cpp:48-62 | likewise after an end tag; at an offer's end the callback stores the offer's document or nothing |
| SaxParser.Parser.OnText | feed/parser.cpp:64-70 | likewise after characters |
| SaxParser.Parser.HandleAll | feed/parser.cpp:16-70 | over any run of events the heap represents the states and the collection gets what the callbacks store, in order |
| SaxParser.Parser.ParseFeed | feed/parser.cpp:16-79 | a whole feed, from events to collection: the documents of the wanted offers arrive whenever no offer is nested and each is right, and that is exactly when each offer amounts to what it should |
| OfferDocument.WalkIffAcceptable | feed/offer_parser.cpp:42-50 | the walk throws if and only if some node at any depth is filtered out |
| OfferDocument.OfferFilters | feed/offer_parser.cpp:42-50 | with only the root called offer, the filters are: every type at any depth, every category directly below the root |
| OfferDocument.WalkBuildsFields | feed/offer_parser.cpp:52-64 | the calls are balanced and add exactly the node's fields, at any depth, though all go to the root stream |
| OfferDocument.BsonFromOfferExactly | feed/offer_parser.cpp:69-75 | the nested document with the root spread out for an acceptable offer, an exception for every other |
| OfferFields.RenamedExactly | feed/offer_parser.cpp:38-39 | a key is the name with `_` for each `-` |
| OfferFields.NoDashes | feed/offer_parser.cpp:38-65 | no key at any depth of any document has a dash |
| OfferFields.LeafHolds | feed/offer_parser.cpp:60-64 | a leaf's field holds an int if the text is one, else a double, else the truth value of the two words, else the text |
| OfferFields.DocumentPlaceByPlace | feed/offer_parser.cpp:35-75 | fields and nodes stand at the same places: each node's key, its value if it is a leaf, and a subdocument with one field for each child otherwise |
| OfferFields.ThrowsForTheFirst | feed/offer_parser.cpp:42-50 | the walk throws if and only if some node is of the wrong type or category, and its message names the first such node in document order |
| OfferFields.FilterWords | feed/offer_parser.cpp:42-50 | the filters are: every type at any depth is продажа, every category directly below the root is квартира |
| OfferDocument.LeafExact | feed/offer_parser.cpp:23-65 | a leaf adds exactly its field if the conversion is evaluated first or the text is an int, and otherwise nothing can make a document of its calls |
| OfferParsers.TryAddInt | feed/offer_parser.cpp:23-33 | true exactly if the conversion to int succeeds; if it fails, nothing is added or, with the other order of operands, the key alone |
| OfferParsers.TryAddDouble | feed/offer_parser.cpp:23-33 | the same for double |
| OfferParsers.ParseOffer | feed/offer_parser.cpp:35-65 | the recursion over the nodes makes the calls of the walk, or throws its message |
| OfferParsers.FromOffer | feed/offer_parser.cpp:69-75 | what is finalized is the document of the tree |
| OfferParsers.SameDocumentsSameStored | feed/offer_parser.cpp:87-101 | offers that amount to the same documents leave the same collection |
| OfferParsers.OfferParser.Parse | feed/offer_parser.cpp:87-101 | an acceptable offer whose insert works adds its document and one to the counter modulo 2^64; any other leaves both as they were |
| StreamContext.Shift | feed/3pp/include/bsoncxx/v_noabi/bsoncxx/builder/stream/value_context.hpp:66-109 | the operator makes the one call its overload stands for and yields that overload's context |
| StreamContext.TypedStepIsLegal | feed/3pp/include/bsoncxx/v_noabi/bsoncxx/builder/stream/key_context.hpp:66-157 | a well-typed step that does not leave the outermost container is a legal call and the type stack stays the container stack |
| StreamContext.TypedIffLegal | feed/3pp/include/bsoncxx/v_noabi/bsoncxx/builder/stream/array_context.hpp:70-165 | the types admit exactly the calls the core can carry out: keys and values alternate in documents, arrays get no keys, closings match |
| StreamContext.OutermostMayBeClosed | feed/3pp/include/bsoncxx/v_noabi/bsoncxx/builder/stream/key_context.hpp:66-157 | the types let the outermost container be closed, which the core cannot do, exactly when no other is open and no key waits |
| StreamContext.FinalizeIffComplete | feed/3pp/include/bsoncxx/v_noabi/bsoncxx/builder/stream/key_context.hpp:123-132 | finalize is accepted exactly with nothing left open |
| StreamContext.TypedChainIsLegal | feed/3pp/include/bsoncxx/v_noabi/bsoncxx/builder/stream/key_context.hpp:66-157 | the same over whole chains |
| StreamContext.TypedDocumentExtracts | feed/3pp/include/bsoncxx/v_noabi/bsoncxx/builder/stream/document.hpp:34-67 | a chain from a fresh document may be finalized exactly when its log is a complete document |
| Workers.NextIsSafe | feed/offer_parser.cpp:87-101 | mutual exclusion, and a counter that lags only in its holder's hands, survive every step |
| Workers.NextIsFaithful | feed/offer_parser.cpp:87-101 | for each feed, inserted and still due documents are its acceptable offers in order |
| Workers.CountWhenUnlocked | feed/offer_parser.cpp:87-101 | under every schedule the counter equals the number of documents whenever the lock is free |
| Workers.AfterTheJoins | app/main.cpp:96-110 | after the joins the collection interleaves each feed's acceptable offers in feed order |
| Workers.NeverStuck | feed/offer_parser.cpp:89-100 | an exception does not keep the lock: until all are through, some thread can go on |
| Workers.EveryScheduleEnds | app/main.cpp:96-110 | no schedule is longer than five steps an offer, so the joins are reached |
| Application.AcceptedIsStored | feed/offer_parser.cpp:87-101 | what the offers of a feed amount to for its thread is what the parser alone would store |
| Application.CollectionAfterTheRun | app/main.cpp:92-110 | under every schedule each feed contributes, in document order, exactly the documents of what its parser hands over, and these are the documents of its wanted offers if none is nested and each is right |
| LibBson.OrderRefinesTime | feed/3pp/include/libbson-1.0/bson-oid.h:73-78 | ObjectId order refines creation time, through the little-endian load and the byte swap |
| LibBson.TimeIsBigEndian | feed/3pp/include/libbson-1.0/bson-oid.h:235-242 | the time is the first four bytes read most significant first |
| LibBson.SwapsBytes | feed/3pp/include/libbson-1.0/bson-endian.h:135-170 | the 16-bit and the 32-bit swap reverse the bytes |
| LibBson.ComparesAllBytes | feed/3pp/include/libbson-1.0/bson-oid.h:73-98 | the first of the twelve bytes that differs decides, in opposite ways for the two orders of arguments, and zero is for equal ObjectIds alone, as bson_oid_equal_unsafe says too |
| LibBson.SwapTwice | feed/3pp/include/libbson-1.0/bson-endian.h:135-196 | the slow swaps are their own inverses |
| LibBson.Swap64ByHalves | feed/3pp/include/libbson-1.0/bson-endian.h:185-196 | the 64-bit swap exchanges and swaps the halves |
| LibBson.Hash | feed/3pp/include/libbson-1.0/bson-oid.h:113-124 | the loop computes the base-33 polynomial of the bytes with leading 5381, modulo 2^32 |
| LibBson.DigitReadsBack | feed/3pp/include/libbson-1.0/bson-oid.h:155-200 | a digit from either alphabet reads as its value |
| LibBson.HexDigitExactly | feed/3pp/include/libbson-1.0/bson-oid.h:155-200 | each digit of either case has its value, and every other character counts as zero |
| LibBson.InitFromString | feed/3pp/include/libbson-1.0/bson-oid.h:214-224 | each of the twelve bytes is 16 times the value of its first character and that of its second, whatever the characters are, and any spelling of an ObjectId reads back as it |
| LibBson.PowersExactly | feed/3pp/include/libbson-1.0/bson-types.h:517-521 | the test holds exactly for the values 1 << e with e from 0 to 63 |
| LibBson.NarrowTest | feed/3pp/include/libbson-1.0/bson-types.h:517-521 | on values that fit in 32 bits the 32-bit test agrees |
| LibBson.NextPowerOfTwo | feed/3pp/include/libbson-1.0/bson-types.h:499-514 | the least 1 << e not below v; 0 exactly for 0 and above 2^63 |

## Left out

- OfferParsers.ParseOffer: takes the conversion in try_add to come before the key, an order that C++11 leaves open; for the other one OfferDocument.LeafExact says which leaves still work, and the walk is not followed further.
- Curl, files, configuration, directory naming and the `mkdir` command of `feed/feed.cpp` and `app/main.cpp`.
- libxml++, the MongoDB driver and the bodies of `bsoncxx::builder::core`: events are the input, the core is a log of operations read as a pushdown machine, and insert_one either appends or fails as a given function of the document says.
- `boost::lexical_cast`: the conversions to int and double are given partial functions; a double is its bit pattern.
- Clock and locale: each start tag comes with the time that the clock shows at it.
- CDATA sections: feed/parser.h overrides no handler for them, so what libxml++ does with their text is not part of this model; the whole text of an element is the whole of what on_characters reports.
- Expiry of the weak parent links: a parent link is a plain reference, and the proofs show that it leads to a node of the same tree while the root is held.
- The progress message every 10000 offers and the message printed for an exception.
- Callables, concatenation, and the conversion operators of the stream contexts, which forget the type stack on purpose.
- The VS2008 variants of the list macros, and evaluating a macro's argument more than once.
- The search macros, DL_FOREACH (the text of LL_FOREACH) and the LL_ and DL_ variants of the deletion-safe loop, which would add only easy members.
- Which nodes stay reachable from a head pointer that DL_CONCAT has made stale.
- `__bson_double_swap_slow` and the big-endian branch of the byte order macros, where the conversions are the identity.
- Whether distinct names stay distinct when `-` becomes `_` in keys: they do not.
- The mongocxx headers and the other libmongoc and libbson headers, which hold declarations.
