/** The directory of `{subject}_hints.yaml` files that both `update_topics`
    functions and `sync_db_to_yaml` rewrite, and the key a topic is filed under in
    such a file. A file is held as its parsed YAML content; dumping and loading it
    again gives the same value back. */
module HintFiles {
  import opened Values
  import opened Text

  /** `topic.lower().replace(" ", "_")`: the key of a topic in a hints file. */
  function TopicKey(topic: string): (r: string)
    ensures |r| == |topic|
    ensures forall k :: 0 <= k < |r| ==> r[k] == if topic[k] == ' ' then '_' else LowerChar(topic[k])
  {
    var lowered := Lower(topic);
    ReplaceChar(lowered, ' ', '_');
    assert forall k :: 0 <= k < |topic| ==> (lowered[k] == ' ' <==> topic[k] == ' ');
    Replace(lowered, " ", "_")
  }

  /** A key has no space and no upper-case letter, and keying it again changes
      nothing. */
  lemma TopicKeyCanonical(topic: string)
    ensures ' ' !in TopicKey(topic)
    ensures forall k :: 0 <= k < |TopicKey(topic)| ==> !('A' <= TopicKey(topic)[k] <= 'Z')
    ensures TopicKey(TopicKey(topic)) == TopicKey(topic)
  {
    var r := TopicKey(topic);
    assert forall k :: 0 <= k < |r| ==> r[k] != ' ';
    assert TopicKey(r) == r;
  }

  /** `yaml.safe_load(f) or {}` on a subject's hints file; a missing file is first
      written as `{}`, so it loads as `{}` too. */
  function Loaded(files: map<string, Value>, subject: string): (r: Value)
    ensures Truthy(r) || r == VMap([])
    ensures subject in files && Truthy(files[subject]) ==> r == files[subject]
  {
    if subject in files && Truthy(files[subject]) then files[subject] else VMap([])
  }

  /** The hints directory: the parsed content of `{subject}_hints.yaml` for every
      subject that has such a file. */
  class HintsDirectory {
    var files: map<string, Value>

    constructor (files: map<string, Value>)
      ensures this.files == files
    {
      this.files := files;
    }
  }
}
