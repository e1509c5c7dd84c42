/**
 * Prompt construction: the evaluation prompt (`input_prompt.format(text=..., jd=...)`)
 * and the optimisation prompt (the f-string in `optimize_resume`). A template
 * is a sequence of literal text and named slots; formatting fills every slot
 * with its argument, unchanged.
 */
module Prompts {
  import opened Wrappers

  datatype Piece = Literal(text: string) | Slot(name: string)

  type Template = seq<Piece>

  /** Every slot of `t` has an argument in `args`. */
  predicate Supplied(t: Template, args: map<string, string>) {
    forall i :: 0 <= i < |t| ==> t[i].Slot? ==> t[i].name in args
  }

  /**
   * Python's `template.format(**args)`: literal text is copied, each slot is
   * replaced by its argument; a slot without an argument raises `KeyError`,
   * modelled as `None`.
   */
  function Format(t: Template, args: map<string, string>): (r: Option<string>)
    ensures r.Some? <==> Supplied(t, args)
  {
    if t == [] then Some("")
    else
      var first := match t[0]
        case Literal(s) => Some(s)
        case Slot(n) => if n in args then Some(args[n]) else None;
      var rest := Format(t[1..], args);
      assert Supplied(t, args) <==> first.Some? && Supplied(t[1..], args) by {
        assert forall i :: 1 <= i < |t| ==> t[i] == t[1..][i - 1];
      }
      if first.Some? && rest.Some? then Some(first.value + rest.value) else None
  }

  /** Formatting a concatenation of templates concatenates the formatted parts. */
  lemma {:induction false} FormatAppend(a: Template, b: Template, args: map<string, string>)
    requires Supplied(a, args) && Supplied(b, args)
    ensures Format(a + b, args) == Some(Format(a, args).value + Format(b, args).value)
    decreases |a|
  {
    if a == [] {
      assert a + b == b;
      assert Format(a, args) == Some("");
      assert "" + Format(b, args).value == Format(b, args).value;
    } else {
      assert (a + b)[0] == a[0] && (a + b)[1..] == a[1..] + b;
      assert Supplied(a[1..], args) by {
        assert forall i :: 1 <= i < |a| ==> a[i] == a[1..][i - 1];
      }
      FormatAppend(a[1..], b, args);
      var head := match a[0] case Literal(s) => s case Slot(n) => args[n];
      assert Format(a, args) == Some(head + Format(a[1..], args).value);
      assert Format(a + b, args) == Some(head + Format(a[1..] + b, args).value);
      var x, y := Format(a[1..], args).value, Format(b, args).value;
      assert head + (x + y) == (head + x) + y;
    }
  }

  /** A template made of literal text alone formats to that text whatever the arguments. */
  lemma {:induction false} FormatLiteral(s: string, args: map<string, string>)
    ensures Format([Literal(s)], args) == Some(s)
  {
    assert [Literal(s)][1..] == [];
    assert s + "" == s;
  }

  /** A lone slot formats to its argument, character for character. */
  lemma {:induction false} FormatSlot(name: string, args: map<string, string>)
    requires name in args
    ensures Format([Slot(name)], args) == Some(args[name])
  {
    assert [Slot(name)][1..] == [];
    assert args[name] + "" == args[name];
  }

  const EvaluationIntro := @"
Hey Act Like a skilled or very experienced ATS(Application Tracking System)
with a deep understanding of tech field, software engineering, data science, data analyst
and big data engineer and (AI PM, Cybersecurity, Generative AI). Your task is to evaluate the resume based on the given job description.
You must consider the job market is very competitive and you should provide 
best assistance for improving the resumes. Assign the percentage Matching based 
on JD and the missing keywords with high accuracy.

Resume:
"
  const EvaluationMiddle := @"

Job Description:
"
  const EvaluationOutro := @"

I want the response in JSON:
{
  ""JD Match"":""%"",
  ""MissingKeywords"":[],
  ""Profile Summary"":""""
}
"
  const OptimizationIntro := @"
    You are a professional resume writer and specialist in ATS optimization. 
    Revise the resume to achieve maximum ATS compatibility (aiming for close to 100%). 
    
    Guidelines:
    1. Impact Framework with Metrics:
    
    Articulate your achievements using the following structure:
    “Accomplished [X] as measured by [Y] metric or percentage by executing [Z].”

    - [X]: What specific result or outcome did you achieve? (e.g., improved revenue, increased efficiency, reduced costs)
    - [Y]: What metric or percentage quantifies the success of your achievement? (e.g., 20% growth, $100K saved, 50% improvement)
    - [Z]: What actions, strategies, or initiatives did you implement to realize this result? (e.g., process overhaul, team collaboration, new technology)

    Example Prompts:
    
    - “Accomplished [X] as measured by [Y] metric or percentage by executing [Z].”
      e.g., Increased sales by 15% as measured by revenue growth by implementing a targeted email marketing campaign.

    - “Accomplished [X] by [Y]% in [Z] time frame by [action].”
      e.g., Reduced customer churn by 30% in 3 months by revamping the onboarding process.





    Job Description:
    "
  const OptimizationMiddle := @"

    Current Resume:
    "
  const OptimizationOutro := @"

    Return the improved resume text only.
    "

  /** `input_prompt`: instructions, the résumé text, the job description, and the required JSON shape. */
  const EvaluationTemplate: Template :=
    [Literal(EvaluationIntro), Slot("text"), Literal(EvaluationMiddle), Slot("jd"), Literal(EvaluationOutro)]

  /** The f-string of `optimize_resume`: rewriting instructions, the job description, then the résumé. */
  const OptimizationTemplate: Template :=
    [Literal(OptimizationIntro), Slot("jd"), Literal(OptimizationMiddle), Slot("resume_text"), Literal(OptimizationOutro)]

  /** Formats a five-piece template `literal, slot, literal, slot, literal`. */
  lemma FormatFive(l0: string, n1: string, l2: string, n3: string, l4: string, args: map<string, string>)
    requires n1 in args && n3 in args
    ensures Format([Literal(l0), Slot(n1), Literal(l2), Slot(n3), Literal(l4)], args)
         == Some(l0 + args[n1] + l2 + args[n3] + l4)
  {
    var t := [Literal(l0), Slot(n1), Literal(l2), Slot(n3), Literal(l4)];
    assert t == [Literal(l0)] + [Slot(n1)] + [Literal(l2)] + [Slot(n3)] + [Literal(l4)];
    FormatLiteral(l0, args);
    FormatSlot(n1, args);
    FormatLiteral(l2, args);
    FormatSlot(n3, args);
    FormatLiteral(l4, args);
    FormatAppend([Literal(l0)], [Slot(n1)], args);
    FormatAppend([Literal(l0)] + [Slot(n1)], [Literal(l2)], args);
    FormatAppend([Literal(l0)] + [Slot(n1)] + [Literal(l2)], [Slot(n3)], args);
    FormatAppend([Literal(l0)] + [Slot(n1)] + [Literal(l2)] + [Slot(n3)], [Literal(l4)], args);
  }

  /**
   * The evaluation prompt for a résumé text and a job description: both are
   * placed verbatim, the résumé first, between the template's fixed texts.
   */
  function EvaluationPrompt(text: string, jd: string): (p: string)
    ensures p == EvaluationIntro + text + EvaluationMiddle + jd + EvaluationOutro
  {
    var args := map["text" := text, "jd" := jd];
    FormatFive(EvaluationIntro, "text", EvaluationMiddle, "jd", EvaluationOutro, args);
    Format(EvaluationTemplate, args).value
  }

  /**
   * The optimisation prompt: the job description, then the current résumé,
   * both verbatim, between the template's fixed texts.
   */
  function OptimizationPrompt(resumeText: string, jd: string): (p: string)
    ensures p == OptimizationIntro + jd + OptimizationMiddle + resumeText + OptimizationOutro
  {
    var args := map["jd" := jd, "resume_text" := resumeText];
    FormatFive(OptimizationIntro, "jd", OptimizationMiddle, "resume_text", OptimizationOutro, args);
    Format(OptimizationTemplate, args).value
  }

  /**
   * Nothing of the inputs is lost: the résumé text and the job description
   * can be read back out of the evaluation prompt at fixed offsets.
   */
  lemma EvaluationPromptRecoverable(text: string, jd: string)
    ensures var p := EvaluationPrompt(text, jd);
      var at := |EvaluationIntro| + |text| + |EvaluationMiddle|;
      && p[|EvaluationIntro|..|EvaluationIntro| + |text|] == text
      && p[at..at + |jd|] == jd
  {
  }

  /** Two evaluation prompts for résumé texts of equal length are equal only when the inputs are. */
  lemma EvaluationPromptInjective(t1: string, j1: string, t2: string, j2: string)
    requires |t1| == |t2| && EvaluationPrompt(t1, j1) == EvaluationPrompt(t2, j2)
    ensures t1 == t2 && j1 == j2
  {
    EvaluationPromptRecoverable(t1, j1);
    EvaluationPromptRecoverable(t2, j2);
    var at := |EvaluationIntro| + |t1| + |EvaluationMiddle|;
    assert |EvaluationPrompt(t1, j1)| == at + |j1| + |EvaluationOutro|;
  }
}
