/** `generateSealedSecretYAML`: the SealedSecret manifest assembled line by line. */
module Manifest {
  import opened Records
  import opened Text

  function HeaderLines(name: string, namespace: string): seq<string> {
    [ "apiVersion: bitnami.com/v1alpha1",
      "kind: SealedSecret",
      "metadata:",
      "  name: " + name,
      "  namespace: " + namespace,
      "spec:",
      "  encryptedData:" ]
  }

  function EntryLine(e: Entry): string {
    "    " + e.key + ": " + e.value
  }

  function TemplateLines(name: string, namespace: string): seq<string> {
    [ "  template:",
      "    metadata:",
      "      name: " + name,
      "      namespace: " + namespace,
      "    type: Opaque" ]
  }

  function EntryLines(sealed: seq<Entry>): seq<string> {
    seq(|sealed|, i requires 0 <= i < |sealed| => EntryLine(sealed[i]))
  }

  /** The lines before they are joined. */
  function DocumentLines(name: string, namespace: string, sealed: Record): seq<string> {
    HeaderLines(name, namespace) + EntryLines(sealed) + TemplateLines(name, namespace)
  }

  /** The manifest text. */
  function Document(name: string, namespace: string, sealed: Record): string {
    Join(DocumentLines(name, namespace, sealed), '\n')
  }

  /** The source's loop: start from the header, push one line per entry, push the template, join. */
  method GenerateSealedSecretYaml(name: string, namespace: string, sealed: Record) returns (yaml: string)
    ensures yaml == Document(name, namespace, sealed)
  {
    var lines := HeaderLines(name, namespace);
    for i := 0 to |sealed|
      invariant lines == HeaderLines(name, namespace) + EntryLines(sealed[..i])
    {
      assert EntryLines(sealed[..i + 1]) == EntryLines(sealed[..i]) + [EntryLine(sealed[i])];
      lines := lines + [EntryLine(sealed[i])];
    }
    assert sealed[..|sealed|] == sealed;
    lines := lines + TemplateLines(name, namespace);
    yaml := Join(lines, '\n');
  }

  /**
   * Seven header lines, one `    key: value` line per entry in entry order, five template lines;
   * `name` and `namespace` each appear twice, under `metadata` and under `template.metadata`.
   */
  lemma DocumentShape(name: string, namespace: string, sealed: Record)
    ensures var lines := DocumentLines(name, namespace, sealed);
      && |lines| == 12 + |sealed|
      && lines[..3] == ["apiVersion: bitnami.com/v1alpha1", "kind: SealedSecret", "metadata:"]
      && lines[3] == "  name: " + name && lines[4] == "  namespace: " + namespace
      && lines[5] == "spec:" && lines[6] == "  encryptedData:"
      && (forall i :: 0 <= i < |sealed| ==> lines[7 + i] == "    " + sealed[i].key + ": " + sealed[i].value)
      && lines[7 + |sealed|] == "  template:" && lines[8 + |sealed|] == "    metadata:"
      && lines[9 + |sealed|] == "      name: " + name && lines[10 + |sealed|] == "      namespace: " + namespace
      && lines[11 + |sealed|] == "    type: Opaque"
  {
  }

  /**
   * When no name, namespace, key or value contains a line break, splitting the manifest at line
   * breaks gives back exactly the 12 + n lines above; nothing in the renderer quotes or escapes,
   * so this is the condition under which the manifest has the intended shape.
   */
  lemma DocumentSplits(name: string, namespace: string, sealed: Record)
    requires '\n' !in name && '\n' !in namespace
    requires forall i :: 0 <= i < |sealed| ==> '\n' !in sealed[i].key && '\n' !in sealed[i].value
    ensures Split(Document(name, namespace, sealed), '\n') == DocumentLines(name, namespace, sealed)
    ensures |Split(Document(name, namespace, sealed), '\n')| == 12 + |sealed|
  {
    var header, entries, template := HeaderLines(name, namespace), EntryLines(sealed), TemplateLines(name, namespace);
    var lines := DocumentLines(name, namespace, sealed);
    HeaderNoBreak(name, namespace);
    EntriesNoBreak(sealed);
    TemplateNoBreak(name, namespace);
    forall i | 0 <= i < |lines| ensures '\n' !in lines[i] {
      if i < 7 {
        assert lines[i] == header[i];
      } else if i < 7 + |sealed| {
        assert lines[i] == entries[i - 7];
      } else {
        assert lines[i] == template[i - 7 - |sealed|];
      }
    }
    SplitJoin(lines, '\n');
  }

  lemma HeaderNoBreak(name: string, namespace: string)
    requires '\n' !in name && '\n' !in namespace
    ensures |HeaderLines(name, namespace)| == 7
    ensures forall i :: 0 <= i < 7 ==> '\n' !in HeaderLines(name, namespace)[i]
  {
  }

  lemma TemplateNoBreak(name: string, namespace: string)
    requires '\n' !in name && '\n' !in namespace
    ensures |TemplateLines(name, namespace)| == 5
    ensures forall i :: 0 <= i < 5 ==> '\n' !in TemplateLines(name, namespace)[i]
  {
  }

  lemma EntriesNoBreak(sealed: seq<Entry>)
    requires forall i :: 0 <= i < |sealed| ==> '\n' !in sealed[i].key && '\n' !in sealed[i].value
    ensures |EntryLines(sealed)| == |sealed|
    ensures forall i :: 0 <= i < |sealed| ==> '\n' !in EntryLines(sealed)[i]
  {
  }
}
