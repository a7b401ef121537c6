/** The two hand-written lookup tables at the top of `outputs_to_booklet.py`.
    They share one key list; its order is the order models are sorted in and
    listed in the table of contents. */
module ModelTable {
  import opened Outcomes
  import opened OrderedDict

  /** `model_hash_files`: short model hash to checkpoint path. */
  const HashFiles: Dict<string> := [
    ("7460a6fa", "models/Stable-diffusion/sd-v1.4.ckpt"),
    ("08bf2ce2", "models/Stable-diffusion/finetuned: epoch=000307.ckpt"),
    ("9a4c6612", "models/Stable-diffusion/epoch=000461.ckpt"),
    ("2efa9d2e", "models/Stable-diffusion/finetuned: last.ckpt")
  ]

  /** `model_hash_names`: short model hash to display name. */
  const HashNames: Dict<string> := [
    ("7460a6fa", "stable diffusion v1.4"),
    ("08bf2ce2", "finetuned: epoch 000307"),
    ("9a4c6612", "finetuned: epoch 000461"),
    ("2efa9d2e", "finetuned: last")
  ]

  predicate Known(h: string) {
    h in Keys(HashNames)
  }

  /** Both tables are dicts over the same keys, in the same order. */
  lemma TablesAgree()
    ensures Keys(HashFiles) == Keys(HashNames)
    ensures DistinctKeys(HashFiles) && DistinctKeys(HashNames)
  {
  }

  /** `model_hash_names[h]`; `None` is the `KeyError`. */
  function ModelName(h: string): (r: Option<string>)
    ensures r.Some? <==> Known(h)
  {
    Find(HashNames, h)
  }

  /** The name looked up for the i-th table entry is that entry's name. */
  lemma ModelNameOfEntry(i: nat)
    requires i < |HashNames|
    ensures ModelName(HashNames[i].0) == Some(HashNames[i].1)
  {
    TablesAgree();
    FindDistinct(HashNames, i);
  }

  /** The sort priority of a model: its position in the key list of
      `model_hash_files`. */
  function Priority(h: string): (p: nat)
    requires Known(h)
    ensures p < |HashFiles| && HashFiles[p].0 == h
  {
    TablesAgree();
    IndexOf(Keys(HashFiles), h)
  }

  /** The i-th entry of the name table is known and has priority i, so the
      table of contents and the sorted sections list models in one order. */
  lemma PriorityIsPosition(i: nat)
    requires i < |HashNames|
    ensures Known(HashNames[i].0)
    ensures Priority(HashNames[i].0) == i
  {
    TablesAgree();
    assert Keys(HashNames)[i] == HashNames[i].0;
  }

  /** Distinct known hashes have distinct priorities. */
  lemma PriorityInjective(h1: string, h2: string)
    requires Known(h1) && Known(h2)
    requires Priority(h1) == Priority(h2)
    ensures h1 == h2
  {
  }
}
