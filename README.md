# Sample selection of the deployment script

This project models the rule by which the deployment script of the paper
chatbot builds its small bundled dataset (`sample_papers.json`) from the full
paper list. The script walks the papers in source order. It stops once 50
papers are taken. It takes every paper while fewer than 20 are taken. After
that it takes a paper only when its primary category has not been recorded
yet. It records only non-empty categories; a paper with no `categories`
object or no `primary` field counts as having the empty category.

The model lives in one module, `PrepareDeployment` (`sample_selection.dfy`):

- `Paper` is a record with an optional `categories` object whose `primary`
  field is optional; `PrimaryCategory` reads it, defaulting to `""`.
- `Run` is the reference definition: a left fold of one loop iteration
  (`Step`) over the input. Its state `Selection` holds the sample, the
  recorded category set and, for the proofs, the source index of each paper
  taken.
- `SelectSample` is the loop itself, a `while` loop over an index with an
  early `break`, a growing `seq` and a growing `set`. It is proved equal to
  `Run`, and the lemmas state what `Run` guarantees.

The script's comments promise "a representative sample (50 papers from
different categories)" (`data/scripts/prepare_deployment.py:59`) and describe
the test as including a paper "if we haven't seen this category or if we have
< 50 papers" (line 70), while the code tests fewer than 20 (line 71). The model
follows the code. What the code does guarantee about category coverage:

- when every paper has a primary category, an input with at least 20
  distinct categories gives a sample with at least 20
  (`DiversityFloorWithoutMissing`);
- whenever the sample ends below 50 papers, every non-empty category of the
  input is recorded (`RunCoversWhenNotFull`), uncategorised papers or not;
- uncategorised papers always pass the "not seen" test, so they can fill
  every slot after the 20th: 20 papers of one category followed by 30
  uncategorised ones make up the whole sample, with one category recorded
  (`MissingCategoriesDefeatFloor`).

## Model

| member | source | states |
|---|---|---|
| PrepareDeployment.SelectSample | data/scripts/prepare_deployment.py:59-74 | the loop returns exactly the sample and category set of `Run`; it examined every paper unless the sample is full, and it stopped at the first paper met with 50 taken; at most 50 papers; recorded set equals the non-empty categories of the sample; first min(20, n) papers lead the sample; papers past slot 20 with a category differ in category from all earlier ones |
| PrepareDeployment.RunBounded | data/scripts/prepare_deployment.py:63-65 | the sample never holds more than 50 papers |
| PrepareDeployment.RunSaturated | data/scripts/prepare_deployment.py:63-65 | once 50 papers are taken, no later paper changes the sample or the recorded set |
| PrepareDeployment.RunSubsequence | data/scripts/prepare_deployment.py:63-72 | the sample is an order-preserving subsequence of the input, witnessed by strictly increasing source indices |
| PrepareDeployment.RunExtends | data/scripts/prepare_deployment.py:63-74 | the state after a prefix of the input is a prefix of the final state; later papers are only appended |
| PrepareDeployment.RunPrefix | data/scripts/prepare_deployment.py:71-72 | the first min(20, n) input papers are taken, in order, at the front of the sample |
| PrepareDeployment.RunShortInput | data/scripts/prepare_deployment.py:71-72 | an input of at most 20 papers is the sample |
| PrepareDeployment.RunDecision | data/scripts/prepare_deployment.py:64-72 | paper i is taken iff, when reached, the sample has fewer than 50 papers and either fewer than 20 or its category is not yet recorded |
| PrepareDeployment.RunSeen | data/scripts/prepare_deployment.py:73-74 | the recorded set equals the set of non-empty primary categories of the papers taken; `""` is never recorded |
| PrepareDeployment.MissingCategoryTaken | data/scripts/prepare_deployment.py:68-74 | a paper without a primary category is taken whenever the sample is not full |
| PrepareDeployment.RunDistinctAfterOpenSlots | data/scripts/prepare_deployment.py:71-74 | every paper taken past slot 20 with a non-empty category differs in category from every earlier paper taken |
| PrepareDeployment.RunCoversWhenNotFull | data/scripts/prepare_deployment.py:63-74 | if the sample ends below 50, every non-empty primary category of the input is recorded |
| PrepareDeployment.RunDiversityWithoutMissing | data/scripts/prepare_deployment.py:71-74 | without uncategorised papers, at most 19 papers of the sample repeat a category |
| PrepareDeployment.DiversityFloorWithoutMissing | data/scripts/prepare_deployment.py:59-74 | without uncategorised papers, an input with at least 20 distinct categories gives a sample with at least 20 |
| PrepareDeployment.MissingCategoriesDefeatFloor | data/scripts/prepare_deployment.py:68-74 | 20 papers of one category followed by 30 uncategorised ones form the whole sample, with a single recorded category |

## Left out

- Reading `papers_data.json`, writing `sample_papers.json`, the file-existence check and the size and coverage printing around the loop: file I/O and JSON library calls.
- `compress_large_files`: gzip compression and file copying through foreign libraries, and floating-point size and ratio printing.
- Paper fields other than the primary category: the loop copies each record into the sample unchanged, so one `id` string stands for the rest of the record.
- A `categories` value that is not an object (the `.get` call would raise): the model assumes well-formed records. A JSON `null` primary behaves like an absent one in the code and is modelled as absent.
- The chat UI and the retrieval engine it imports (search, response composition, statistics) are not part of this model; the engine's source is not in the repository files modelled here.
