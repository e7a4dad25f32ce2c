/** The derived queries of the appointment repository, as side-effect-free
    predicates and filters over the stored rows. */
module ConsultaRepository {
  import opened Tempo
  import opened DominioConsulta

  /** The appointment table: id of each stored appointment to its values. */
  type Tabela = map<int, Registro>

  /** Some active appointment of the patient lies between the two instants,
      both ends included (Spring Data's `Between`). */
  predicate ExistsByPacienteIdAndDataHoraBetweenAndAtivoTrue(
    tabela: Tabela, idPaciente: int, primeiroHorario: Instante, ultimoHorario: Instante)
  {
    exists k :: k in tabela && tabela[k].ativo && tabela[k].paciente == idPaciente
      && primeiroHorario <= tabela[k].dataHora <= ultimoHorario
  }

  /** Some active appointment of the practitioner is at exactly this instant. */
  predicate ExistsByMedicoIdAndDataHoraAndAtivoTrue(tabela: Tabela, idMedico: int, dataHora: Instante)
  {
    exists k :: k in tabela && tabela[k].ativo && tabela[k].medico == idMedico
      && tabela[k].dataHora == dataHora
  }

  /** The active appointments (ordering and paging are left to the caller). */
  function FindAllByAtivoTrue(tabela: Tabela): Tabela {
    map k | k in tabela && tabela[k].ativo :: tabela[k]
  }

  /** The listing holds exactly the active rows, unchanged. */
  lemma ListagemSoDeAtivas(tabela: Tabela)
    ensures FindAllByAtivoTrue(tabela).Keys <= tabela.Keys
    ensures forall k :: k in tabela ==> (k in FindAllByAtivoTrue(tabela) <==> tabela[k].ativo)
    ensures forall k :: k in FindAllByAtivoTrue(tabela) ==> FindAllByAtivoTrue(tabela)[k] == tabela[k]
  {
  }

  /** Cancelled appointments play no part in the patient query: it gives
      the same answer on the table and on its active rows. */
  lemma CanceladasNaoContamParaOPaciente(tabela: Tabela, idPaciente: int, a: Instante, b: Instante)
    ensures ExistsByPacienteIdAndDataHoraBetweenAndAtivoTrue(tabela, idPaciente, a, b)
        == ExistsByPacienteIdAndDataHoraBetweenAndAtivoTrue(FindAllByAtivoTrue(tabela), idPaciente, a, b)
  {
    if ExistsByPacienteIdAndDataHoraBetweenAndAtivoTrue(tabela, idPaciente, a, b) {
      var k :| k in tabela && tabela[k].ativo && tabela[k].paciente == idPaciente && a <= tabela[k].dataHora <= b;
      assert k in FindAllByAtivoTrue(tabela);
    }
  }

  /** Cancelled appointments play no part in the practitioner query: it
      gives the same answer on the table and on its active rows. */
  lemma CanceladasNaoContamParaOMedico(tabela: Tabela, idMedico: int, t: Instante)
    ensures ExistsByMedicoIdAndDataHoraAndAtivoTrue(tabela, idMedico, t)
        == ExistsByMedicoIdAndDataHoraAndAtivoTrue(FindAllByAtivoTrue(tabela), idMedico, t)
  {
    if ExistsByMedicoIdAndDataHoraAndAtivoTrue(tabela, idMedico, t) {
      var k :| k in tabela && tabela[k].ativo && tabela[k].medico == idMedico && tabela[k].dataHora == t;
      assert k in FindAllByAtivoTrue(tabela);
    }
  }

  /** Cancelling a stored appointment can only turn the patient query from
      true to false, never from false to true. */
  lemma CancelamentoNaoCriaConflitoDoPaciente(
    tabela: Tabela, k: int, motivo: MotivoCancelamento, idPaciente: int, a: Instante, b: Instante)
    requires k in tabela
    ensures ExistsByPacienteIdAndDataHoraBetweenAndAtivoTrue(tabela[k := tabela[k].Cancelada(motivo)], idPaciente, a, b) ==>
      ExistsByPacienteIdAndDataHoraBetweenAndAtivoTrue(tabela, idPaciente, a, b)
  {
  }

  /** Cancelling a stored appointment can only turn the practitioner query
      from true to false, never from false to true. */
  lemma CancelamentoNaoCriaConflitoDoMedico(tabela: Tabela, k: int, motivo: MotivoCancelamento, idMedico: int, t: Instante)
    requires k in tabela
    ensures ExistsByMedicoIdAndDataHoraAndAtivoTrue(tabela[k := tabela[k].Cancelada(motivo)], idMedico, t) ==>
      ExistsByMedicoIdAndDataHoraAndAtivoTrue(tabela, idMedico, t)
  {
  }

  /** A new active row appears in the listing; nothing else changes in it. */
  lemma ListagemAposInclusao(tabela: Tabela, id: int, nova: Registro)
    requires id !in tabela && nova.ativo
    ensures FindAllByAtivoTrue(tabela[id := nova]) == FindAllByAtivoTrue(tabela)[id := nova]
  {
  }

  /** A cancelled row leaves the listing; nothing else changes in it. */
  lemma ListagemAposCancelamento(tabela: Tabela, id: int, motivo: MotivoCancelamento)
    requires id in tabela
    ensures FindAllByAtivoTrue(tabela[id := tabela[id].Cancelada(motivo)]) == FindAllByAtivoTrue(tabela) - {id}
  {
  }
}
