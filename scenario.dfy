/** A request to the chat endpoint followed from the question to the answer,
    with the language model's reply given as a parameter. */
module Scenario {
  import opened Wrappers
  import opened Text
  import opened Catalog
  import opened Filter
  import opened Formatter
  import opened Generator

  /** A catalog holding only the Monstera, asked whether indoor plants are
      sold: the filter keeps the Monstera, the context names it and its price,
      and the model's reply reaches the customer trimmed. */
  lemma MonsteraEndToEnd(descripcion: string)
    ensures var plant := Row(PlantKind, "Monstera", "Monstera deliciosa", descripcion, "350", 5, "", "");
            var products := RelevantProducts(Some([plant]), "¿tienen plantas de interior?");
            && products == [plant]
            && Contains(Format(products), "Monstera")
            && Contains(Format(products), "350")
            && GenerateAiResponse(Success("\n  " + "Sí, tenemos Monstera." + " \n")) == "Sí, tenemos Monstera."
  {
    var plant := Row(PlantKind, "Monstera", "Monstera deliciosa", descripcion, "350", 5, "", "");
    RelevantSinglePlant(plant);
    FormatMentionsEveryProduct([plant], 0);
    MonsteraScenario();
  }
}
