/**
 * The symptom classifier behind the desktop front end (ui/gui.py,
 * `run_inference`): a prioritised chain of membership tests over the set of
 * selected symptoms that yields one of four fixed diagnosis messages.
 */
module Gui {

  const ViralInfection := "Diagnosis: Infeksi Virus (Perlu Istirahat)"
  const ClassicMigraine := "Diagnosis: Migrain Klasik"
  const CommonSymptoms := "Diagnosis: Gejala Umum (Minum Obat Bebas)"
  const NoClearResult := "Diagnosis: Tidak Ada Hasil Jelas. Konsultasi lebih lanjut."

  /**
   * What the attempt to load the rules file produced: success (the parsed
   * content is never used, so it is not kept), or the `Exception` it raised
   * (missing file, malformed content), which the classifier swallows.
   */
  datatype RuleLoad = Loaded | LoadFailed(reason: string)

  /** Whether the selected symptoms include fever, cough and fatigue together. */
  predicate ViralSigns(symptoms: seq<string>)
  {
    "demam" in symptoms && "batuk" in symptoms && "kelelahan" in symptoms
  }

  /**
   * Classify the selected symptoms. The outcome of loading the rules file is
   * taken as a parameter and never consulted, as in the source.
   */
  function RunInference(symptoms: seq<string>, load: RuleLoad): (r: string)
    ensures r in {ViralInfection, ClassicMigraine, CommonSymptoms, NoClearResult}
    ensures r == ViralInfection <==> ViralSigns(symptoms)
    ensures r == ClassicMigraine <==>
              !ViralSigns(symptoms) && "sakit kepala" in symptoms && "mual" in symptoms
    ensures r == NoClearResult <==> "sakit kepala" !in symptoms && "demam" !in symptoms
  {
    var present := set g | g in symptoms;
    if "demam" in present && "batuk" in present && "kelelahan" in present then
      ViralInfection
    else if "sakit kepala" in present && "mual" in present then
      ClassicMigraine
    else if "sakit kepala" in present || "demam" in present then
      CommonSymptoms
    else
      NoClearResult
  }

  /**
   * The diagnosis depends only on which symptoms were selected: not on their
   * order, not on repetitions, and not on whether the rules file loaded.
   */
  lemma SetSemantics(a: seq<string>, b: seq<string>, loadA: RuleLoad, loadB: RuleLoad)
    requires forall g :: g in a <==> g in b
    ensures RunInference(a, loadA) == RunInference(b, loadB)
  {
    assert ViralSigns(a) == ViralSigns(b);
  }

  /** The general-symptoms message is given exactly when no stronger diagnosis applies. */
  lemma CommonSymptomsCase(symptoms: seq<string>, load: RuleLoad)
    ensures RunInference(symptoms, load) == CommonSymptoms <==>
              !ViralSigns(symptoms)
              && !("sakit kepala" in symptoms && "mual" in symptoms)
              && ("sakit kepala" in symptoms || "demam" in symptoms)
  {
    var r := RunInference(symptoms, load);
    assert r in {ViralInfection, ClassicMigraine, CommonSymptoms, NoClearResult};
  }

  /** Fever, cough and fatigue decide the diagnosis whatever else is selected. */
  lemma ViralDominates(symptoms: seq<string>, extra: seq<string>, load: RuleLoad)
    requires ViralSigns(symptoms)
    ensures RunInference(symptoms + extra, load) == ViralInfection
  {
    assert ViralSigns(symptoms + extra);
  }
}
